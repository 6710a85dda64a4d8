# My Fairytale Patcher: signature scan and patch, in Dafny

My Fairytale Patcher changes the rendering resolution of a game executable by
rewriting 32-bit immediates in its machine code. It keeps a table of four
byte signatures (`PATTERNS`):

- "Init Width" and "Init Height" are `mov dword [ebp + xx], imm32` with the
  displacement byte `xx` as a wildcard.
- "Getter Width" and "Getter Height" are `mov eax, imm32`.

Every signature carries the stock value, 1280 or 720, as its immediate. For
each signature in table order, the patcher lists the non-overlapping matches
in the original bytes, left to right (`re.finditer` with `re.DOTALL`). At each
match plus the entry's offset it writes the chosen width or height as a
little-endian `uint32` into a copy of the file. It counts the writes and fails
when there are none. It then names the output file: either the original path,
with an optional `.bak` backup, or the base name stripped of `.unpacked` and
`.exe` and followed by `_{w}x{h}.exe`.

The project models that core.

- `wrappers.dfy`: `Option` and `Result`.
- `bytes.dfy`: bytes, `uint32`, and `struct.pack('<I')` with its inverse.
- `signature.dfy`: the regexes as signatures of literal and any-byte
  elements, matching at a position, and `re.finditer` as `FindIter`. The scan
  is characterised independently (every listed start matches, starts are
  spaced by the signature length, every match is covered) and proved unique.
  For signatures that cannot overlap themselves it finds every match.
- `patterns.dfy`: `RESOLUTIONS`, `PATTERNS`, and facts about the table.
- `engine.dfy`: the write list, the writes themselves (Python slice assignment
  on a `bytearray`), `PatchBytes` as a pure function, and `PatchFile`, the
  nested loop of `patch_file` as a method proved equal to it.
- `game_patch.dfy`: the run with the real table. It proves that two write
  windows either coincide or are disjoint, so the order of the writes does not
  matter. The result is stated against a reference description: each matched
  field reads back as the target value, and every byte outside matched fields
  is unchanged.
- `naming.dfy`: the output-name derivation, the backup and unpacked paths,
  and the `.unpacked` guard.
- `examples.dfy`: worked runs on small buffers.

Re-patching does not reproduce the same output. Running the patcher again on
its own output can be refused with "No resolution patterns found", because the
immediates no longer hold 1280 or 720, so the signatures no longer occur.
`Examples.RepatchRefused` proves this for one five-byte buffer, as an example.
The model proves no general statement about second runs. The model follows
the code here.

## Model

| member | source | states |
|---|---|---|
| Patterns.LookupResolution | My-Fairytale-Patcher.py:11-15 | A label gives a resolution exactly when it is one of the three `RESOLUTIONS` keys, and then the one stored under that key; any other label is the `KeyError` case |
| Patterns.TableValid | My-Fairytale-Patcher.py:18-23 | Every `PATTERNS` regex is non-empty and uses no regex metacharacter other than `.` |
| Patterns.CompiledSignatures | My-Fairytale-Patcher.py:18-23 | The two "Init" regexes are 7-byte signatures with a wildcard at index 2; the two "Getter" regexes are 5 literal bytes |
| Patterns.TableWindows | My-Fairytale-Patcher.py:18-23 | Every write window `[offset, offset + 4)` lies inside its signature, and the signature bytes there are the little-endian encoding of 1280 (width) or 720 (height) |
| Patterns.TableNoSelfOverlap | My-Fairytale-Patcher.py:18-23 | No table signature can match at two overlapping positions |
| Patterns.TargetValue | My-Fairytale-Patcher.py:210 | Defined as `w` for width entries and `h` for every other entry; `Engine.OpsForFromMatches` states that each write carries it |
| Signature.Compile | My-Fairytale-Patcher.py:19-22 | A plain regex becomes a signature of the same length, with an any-byte element exactly where the regex has `.` and the regex's own byte elsewhere |
| Signature.MatchAt | My-Fairytale-Patcher.py:208 | Returns true exactly when the signature fits at the position and every literal element equals the byte under it |
| Signature.FindIter | My-Fairytale-Patcher.py:208 | `re.finditer` for a fixed-length signature, defined by its scan: a match at the current position is listed and the scan resumes after it, otherwise it moves on one byte, and it stops once the signature no longer fits; `FindIterSpec` and `FindIterUnique` give it an independent description |
| Signature.FindIterSpec | My-Fairytale-Patcher.py:208 | The scan's starts all match, lie at or after the scan origin, follow one another by at least the signature length, and cover every match at or after the origin |
| Signature.FindIterUnique | My-Fairytale-Patcher.py:208 | Any list of starts with those three properties is the scan's result |
| Signature.FindIterEmptyIff | My-Fairytale-Patcher.py:208 | The scan finds nothing exactly when the signature occurs nowhere |
| Signature.FindIterComplete | My-Fairytale-Patcher.py:208 | For a signature that cannot overlap itself, a position is a match exactly when the scan lists it |
| Signature.OverlappingMatchesCoincide | My-Fairytale-Patcher.py:208 | Two matches of a signature that cannot overlap itself, with the second starting inside the first, are the same match |
| Signature.Scan | My-Fairytale-Patcher.py:208 | The loop that walks the buffer returns exactly the non-overlapping leftmost matches |
| Bytes.PackU32LE | My-Fairytale-Patcher.py:210 | `struct.pack('<I', v)` gives four bytes whose base-256 little-endian value is `v` |
| Bytes.UnpackPack | My-Fairytale-Patcher.py:210 | Decoding the four packed bytes gives back the value |
| Bytes.PackUnpack | My-Fairytale-Patcher.py:210 | Packing the decoded value of any four bytes gives back those bytes |
| Bytes.PackInjective | My-Fairytale-Patcher.py:210 | Two values pack to the same bytes exactly when they are equal |
| Engine.SliceAssign | My-Fairytale-Patcher.py:211 | `buf[lo:hi] = v` on a `bytearray`: the result's length is the buffer's, less the slice clipped to the buffer, plus the length of `v` |
| Engine.WriteAt | My-Fairytale-Patcher.py:211 | Writing four packed bytes at an offset never shortens the buffer; `WriteAtSpec` gives its effect byte by byte |
| Engine.SliceAssignAt | My-Fairytale-Patcher.py:211 | `buf[lo:hi] = v` keeps the bytes before `lo`; for a slice inside the buffer it puts `v` at `lo` and moves the bytes from `hi` on to follow `v`; a slice starting at or past the end appends `v`, and one running past the end replaces the tail from `lo` with `v` |
| Engine.WriteAtSpec | My-Fairytale-Patcher.py:211 | A write inside the buffer keeps its length, leaves every byte outside its window unchanged, and puts the packed value in the window |
| Engine.ApplyAll | My-Fairytale-Patcher.py:204-212 | Performs the `patched_data[off:off + 4] = val` writes in order on the copy of the data. It never shortens the buffer. `ApplyAllLength`, `ApplyAllFrame`, `ApplyAllLastWriteWins` and `ApplyAllAppend` state what it leaves in each byte |
| Engine.ApplyAllLength | My-Fairytale-Patcher.py:204-212 | Writes that all fall inside the buffer keep its length |
| Engine.ApplyAllFrame | My-Fairytale-Patcher.py:204-212 | A byte that no write covers keeps its input value |
| Engine.ApplyAllLastWriteWins | My-Fairytale-Patcher.py:204-212 | Where windows overlap, a byte holds the value of the last write covering it |
| Engine.ApplyAllAppend | My-Fairytale-Patcher.py:207-212 | Applying two write lists one after the other equals applying their concatenation |
| Engine.AllOps | My-Fairytale-Patcher.py:207-211 | The run's writes: each table entry's writes in table order, each entry's in match order; `OpsComeFromMatches`, `AllOpsContains` and `OpsCountMatches` relate them to the matches |
| Engine.OpsFor | My-Fairytale-Patcher.py:208-210 | One entry's writes, one per `finditer` match in the original data, as many as there are matches. `OpsForFromMatches` states where each one lands and what it carries |
| Engine.OpsForFromMatches | My-Fairytale-Patcher.py:208-211 | Each write of a pattern sits at a match in the original data plus the entry's offset and carries `w` for width entries and `h` otherwise; for a window inside the signature it lies inside the data |
| Engine.OpsComeFromMatches | My-Fairytale-Patcher.py:207-211 | Every write of the whole run comes from some table entry's match in the original data |
| Engine.AllOpsContains | My-Fairytale-Patcher.py:207-211 | Every write that an entry's `finditer` pass makes, one per listed match, is among the run's writes |
| Engine.OpsCountMatches | My-Fairytale-Patcher.py:205-212 | The number of writes equals the total number of matches over the table |
| Engine.TotalMatches | My-Fairytale-Patcher.py:205-212 | The loop's `count`, the number of `finditer` matches summed over the table. `OpsCountMatches` equates it with the number of writes, and `PatchFailsIffNoMatch` with the count reported on success |
| Engine.NoOpsIffNoMatch | My-Fairytale-Patcher.py:207-214 | There are no writes exactly when no table signature occurs anywhere in the data |
| Engine.PatchFailsIffNoMatch | My-Fairytale-Patcher.py:205-216 | The run fails with "no pattern found" exactly when no signature occurs; otherwise its count is the positive total match count |
| Engine.PatchBytes | My-Fairytale-Patcher.py:204-216 | The run as a pure function: a failure is always "no pattern found", and a success reports a positive count and bytes at least as long as the input |
| Engine.PatchInPlace | My-Fairytale-Patcher.py:204-216 | With every window inside its signature, a successful run keeps the length, keeps untouched bytes, and leaves every covered byte holding the last covering write's packed value |
| Engine.WriteEach | My-Fairytale-Patcher.py:208-212 | The inner loop over one pattern's matches performs exactly that pattern's writes, in match order |
| Engine.PatchPattern | My-Fairytale-Patcher.py:208-212 | One pattern's pass scans the original data, not the partly patched copy, and adds one to the count per match |
| Engine.PatchFile | My-Fairytale-Patcher.py:204-216 | The nested loop returns the pure run's result, with the total match count on success |
| GamePatch.MatchIsField | My-Fairytale-Patcher.py:19-22 | A match of any table entry marks a 4-byte field after `B8` or `C7 45 xx` that holds 1280 or 720 by the entry's kind |
| GamePatch.OverlappingFieldsCoincide | My-Fairytale-Patcher.py:19-22 | Two such fields that overlap are the same field, of the same kind |
| GamePatch.GameOpsOverwriteFields | My-Fairytale-Patcher.py:207-211 | Every write of the real table lands on a width field with value `w` or a height field with value `h` |
| GamePatch.GameWritesAgree | My-Fairytale-Patcher.py:207-211 | Two writes of the real table that cover a common byte are the same write |
| GamePatch.GamePatchOrderFree | My-Fairytale-Patcher.py:204-216 | With the real table, a successful run keeps the length and untouched bytes, and every byte covered by any write holds that write's value; write order is irrelevant |
| GamePatch.WriteInMatchedField | My-Fairytale-Patcher.py:207-211 | Every byte a write covers lies in the field of some match |
| GamePatch.MatchGetsWrite | My-Fairytale-Patcher.py:207-211 | Every match of every entry gets a write of the target value at its field |
| GamePatch.GamePatchReference | My-Fairytale-Patcher.py:204-216 | A successful run keeps the length, changes no byte outside matched fields, and every matched field decodes to `w` (width) or `h` (height) |
| GamePatch.FieldWritten | My-Fairytale-Patcher.py:209-211 | After a successful run, the field of a given match decodes to the target value |
| GamePatch.GameOps | My-Fairytale-Patcher.py:207-211 | The writes `patch_file` makes with the real `PATTERNS`. `GameOpsOverwriteFields`, `GameWritesAgree` and `MatchGetsWrite` state where they land and what they carry |
| GamePatch.PatchGame | My-Fairytale-Patcher.py:204-216 | `patch_file` on the real `PATTERNS`. `GamePatchReference` and `GamePatchOrderFree` describe its output without the scan |
| Naming.RemoveAllLength | My-Fairytale-Patcher.py:235 | `str.replace(pat, "")` shortens the string by the pattern length for each removal it makes |
| Naming.RemoveAllCount | My-Fairytale-Patcher.py:235 | Removing every occurrence of a pattern removes its characters that many times over |
| Naming.RemoveAllAbsent | My-Fairytale-Patcher.py:235 | Removing an absent pattern leaves the string unchanged |
| Naming.RemoveAll | My-Fairytale-Patcher.py:235 | `str.replace(pat, "")`, removing occurrences left to right without overlap, never lengthens the string |
| Naming.Decimal | My-Fairytale-Patcher.py:236 | The text `f"{w}"` prints for a number is non-empty and all digits |
| Naming.DecimalRoundTrip | My-Fairytale-Patcher.py:236 | The decimal text of a number reads back as that number |
| Naming.DecimalCanonical | My-Fairytale-Patcher.py:236 | The decimal text starts with `0` only for zero |
| Naming.SizeTag | My-Fairytale-Patcher.py:236 | The suffix `_{w}x{h}.exe` is at least eight characters, holds exactly one dot, and ends in `.exe` |
| Naming.SaveAsName | My-Fairytale-Patcher.py:235-236 | Defined as the base name with every `.unpacked` and then every `.exe` removed, followed by the size tag; `SaveAsNameDiffers` and `SaveAsNameMeasures` state its properties |
| Naming.SaveAsNameMeasures | My-Fairytale-Patcher.py:235-236 | The output name's length and dot count follow from the removals made and the size tag |
| Naming.SaveAsNameDiffers | My-Fairytale-Patcher.py:233-236 | In non-replace mode the output name never equals the input base name, so the original is never overwritten |
| Naming.SaveAsNameExample | My-Fairytale-Patcher.py:235-236 | `Game.exe.unpacked.exe` at 2560 x 1440 is saved as `Game_2560x1440.exe` |
| Naming.OutputBaseName | My-Fairytale-Patcher.py:223-236 | Defined as the original name in replace mode and the derived name otherwise; `OutputOverwritesIffReplace` states when it overwrites |
| Naming.OutputOverwritesIffReplace | My-Fairytale-Patcher.py:223-236 | The output name is the original's exactly when replace mode is on |
| Naming.BackupPath | My-Fairytale-Patcher.py:228 | The backup path is the game path followed by `.bak` |
| Naming.BackupIsElsewhere | My-Fairytale-Patcher.py:228 | The backup path never equals the game path |
| Naming.UnpackedPath | My-Fairytale-Patcher.py:162 | The unpacked executable's path is the game path followed by `.unpacked.exe`, 13 characters longer |
| Naming.ShouldUnpack | My-Fairytale-Patcher.py:154 | Defined as: the unpacker path is non-empty, it exists, and the game path does not contain `.unpacked` |
| Naming.UnpackedNotUnpackedAgain | My-Fairytale-Patcher.py:154 | The unpacker is never run again on its own output, since that path contains `.unpacked` |
| Examples.WildcardMatchesAnyByte | My-Fairytale-Patcher.py:208-212 | `C7 45 x 00 05 00 00` patched to 3840 x 2160 becomes `C7 45 x 00 0F 00 00` with a count of one, for every displacement byte `x` except `B8` |
| Examples.WildcardMatchesNewline | My-Fairytale-Patcher.py:208 | The wildcard accepts the newline byte 0x0A |
| Examples.GetterPatched | My-Fairytale-Patcher.py:207-216 | `B8 00 05 00 00` patched to 2560 x 1440 becomes `B8 00 0A 00 00` with a count of one |
| Examples.RepatchRefused | My-Fairytale-Patcher.py:214-216 | Patching that output again fails with "no pattern found" |

## Left out

- The tkinter window, its widgets, message boxes and status text: user interface with no computed result.
- The Steamless step (`subprocess.run`, auto-detection, the existence checks at lines 144, 154 and 163): external process and file-system state. What remains is `Naming.ShouldUnpack` over given strings and a given existence flag, and `Naming.UnpackedPath`.
- Reading the input, writing the output, the `shutil.copy2` backup and the `os.remove` cleanup: file I/O. `PatchBytes` returns the bytes that would be written.
- The skip of the backup when `.bak` already exists (line 229): it depends on file-system state.
- `os.path.dirname`, `basename` and `join`: platform path handling. The model works on the base name as a given string.
- The `except Exception` handler (lines 243-245): its sources are I/O errors, and `struct.error` cannot occur because every width and height comes from `RESOLUTIONS` and fits in 32 bits (`uint32` in the model).
- The general `re` engine: only regexes of literal bytes and `.` under `re.DOTALL` are modelled, and the table is proved to be of that kind.
- The `KeyError` that `RESOLUTIONS[res_name]` raises for an unknown label (line 195) is modelled as `None` from `Patterns.LookupResolution`, not as an exception.
