/**
 * The file names `start_process` and `patch_file` derive: the `.unpacked`
 * guard in front of the unpacking step, the unpacker's output name, the
 * backup name, and the name of the patched copy written when the original is
 * not replaced. Folder handling (`os.path.dirname` / `basename` / `join`)
 * stays outside: the base name is taken as given.
 */
module Naming {

  /** `pat` occurs in `s` starting at `i`. */
  predicate OccursAt(s: string, pat: string, i: int) {
    0 <= i && i + |pat| <= |s| && s[i..i + |pat|] == pat
  }

  /** Python's `pat in s`. */
  predicate Contains(s: string, pat: string) {
    exists i :: 0 <= i <= |s| - |pat| && OccursAt(s, pat, i)
  }

  predicate EndsWith(s: string, suffix: string) {
    |suffix| <= |s| && s[|s| - |suffix|..] == suffix
  }

  /** The number of occurrences of the character `c` in `s`. */
  function Count(s: string, c: char): (n: nat) {
    if s == [] then 0 else (if s[0] == c then 1 else 0) + Count(s[1..], c)
  }

  /**
   * Python's `s.replace(pat, "")` for a non-empty `pat`: occurrences are
   * found left to right, each one removed, and the search resumes right after it.
   */
  function RemoveAll(s: string, pat: string): (r: string)
    requires |pat| > 0
    ensures |r| <= |s|
    decreases |s|
  {
    if |s| < |pat| then s
    else if s[..|pat|] == pat then RemoveAll(s[|pat|..], pat)
    else [s[0]] + RemoveAll(s[1..], pat)
  }

  /** How many occurrences `RemoveAll(s, pat)` removes. */
  function Removals(s: string, pat: string): (n: nat)
    requires |pat| > 0
    decreases |s|
  {
    if |s| < |pat| then 0
    else if s[..|pat|] == pat then 1 + Removals(s[|pat|..], pat)
    else Removals(s[1..], pat)
  }

  lemma {:induction false} CountAppend(a: string, b: string, c: char)
    ensures Count(a + b, c) == Count(a, c) + Count(b, c)
    decreases |a|
  {
    if a == [] {
      assert a + b == b;
    } else {
      assert (a + b)[0] == a[0];
      assert (a + b)[1..] == a[1..] + b;
      CountAppend(a[1..], b, c);
    }
  }

  lemma MulStep(r: nat, l: nat)
    ensures (1 + r) * l == l + r * l
  {
  }

  /** `RemoveAll` takes out whole copies of `pat`: the length drops by one copy's length per removal. */
  lemma {:induction false} RemoveAllLength(s: string, pat: string)
    requires |pat| > 0
    ensures |RemoveAll(s, pat)| + Removals(s, pat) * |pat| == |s|
    decreases |s|
  {
    if |s| >= |pat| {
      if s[..|pat|] == pat {
        RemoveAllLength(s[|pat|..], pat);
        MulStep(Removals(s[|pat|..], pat), |pat|);
      } else {
        RemoveAllLength(s[1..], pat);
      }
    }
  }

  /** ... and nothing else: each character's count drops by its count in one copy per removal. */
  lemma {:induction false} RemoveAllCount(s: string, pat: string, c: char)
    requires |pat| > 0
    ensures Count(RemoveAll(s, pat), c) + Removals(s, pat) * Count(pat, c) == Count(s, c)
    decreases |s|
  {
    if |s| >= |pat| {
      if s[..|pat|] == pat {
        var rest := s[|pat|..];
        assert s == pat + rest;
        CountAppend(pat, rest, c);
        RemoveAllCount(rest, pat, c);
        MulStep(Removals(rest, pat), Count(pat, c));
      } else {
        var rest := s[1..];
        assert s == [s[0]] + rest;
        CountAppend([s[0]], rest, c);
        CountAppend([s[0]], RemoveAll(rest, pat), c);
        RemoveAllCount(rest, pat, c);
      }
    }
  }

  /** A string without `pat` is left as it is. */
  lemma {:induction false} RemoveAllAbsent(s: string, pat: string)
    requires |pat| > 0
    ensures !Contains(s, pat) ==> RemoveAll(s, pat) == s
    decreases |s|
  {
    if |s| >= |pat| {
      if s[..|pat|] == pat {
        assert OccursAt(s, pat, 0);
      } else {
        var rest := s[1..];
        RemoveAllAbsent(rest, pat);
        if Contains(rest, pat) {
          var i :| 0 <= i <= |rest| - |pat| && OccursAt(rest, pat, i);
          assert s[i + 1..i + 1 + |pat|] == rest[i..i + |pat|];
          assert OccursAt(s, pat, i + 1);
        }
        assert s == [s[0]] + rest;
      }
    }
  }

  /** The decimal digit character for `d`. */
  function DigitChar(d: nat): (c: char)
    requires d < 10
    ensures '0' <= c <= '9'
  {
    ['0', '1', '2', '3', '4', '5', '6', '7', '8', '9'][d]
  }

  /** The value of a decimal digit character. */
  function DigitValue(c: char): (d: nat)
    requires '0' <= c <= '9'
  {
    c as nat - '0' as nat
  }

  predicate AllDigits(s: string) {
    forall k :: 0 <= k < |s| ==> '0' <= s[k] <= '9'
  }

  /** Python's `str(n)` (as in `f"{w}"`) for a non-negative integer. */
  function Decimal(n: nat): (r: string)
    ensures |r| > 0 && AllDigits(r)
  {
    if n < 10 then [DigitChar(n)] else Decimal(n / 10) + [DigitChar(n % 10)]
  }

  /** Reads a string of decimal digits back as a number. */
  function ParseDecimal(s: string): (n: nat)
    requires AllDigits(s)
    decreases |s|
  {
    if s == [] then 0 else 10 * ParseDecimal(s[..|s| - 1]) + DigitValue(s[|s| - 1])
  }

  /** Reading back the decimal text of `n` gives `n`. */
  lemma {:induction false} DecimalRoundTrip(n: nat)
    ensures ParseDecimal(Decimal(n)) == n
  {
    var r := Decimal(n);
    if n < 10 {
      assert r[..0] == [];
    } else {
      assert r[..|r| - 1] == Decimal(n / 10);
      DecimalRoundTrip(n / 10);
    }
  }

  /** Decimal text has no leading zero, except the single digit of 0: it is what `str` prints. */
  lemma {:induction false} DecimalCanonical(n: nat)
    ensures Decimal(n)[0] == '0' <==> n == 0
  {
    if n >= 10 {
      DecimalCanonical(n / 10);
    }
  }

  lemma {:induction false} DigitsHaveNoDot(s: string)
    requires AllDigits(s)
    ensures Count(s, '.') == 0
    decreases |s|
  {
    if s != [] {
      DigitsHaveNoDot(s[1..]);
    }
  }

  /** What `patch_file` appends to the stripped base name: `_{w}x{h}.exe`. */
  function SizeTag(w: nat, h: nat): (t: string)
    ensures |t| >= 8 && Count(t, '.') == 1 && EndsWith(t, ".exe")
  {
    var t := "_" + Decimal(w) + "x" + Decimal(h) + ".exe";
    DigitsHaveNoDot(Decimal(w));
    DigitsHaveNoDot(Decimal(h));
    CountAppend("_", Decimal(w), '.');
    CountAppend("_" + Decimal(w), "x", '.');
    CountAppend("_" + Decimal(w) + "x", Decimal(h), '.');
    CountAppend("_" + Decimal(w) + "x" + Decimal(h), ".exe", '.');
    t
  }

  /**
   * The name of the patched copy when the original is not replaced: every
   * `.unpacked` removed, then every `.exe` removed, then `_{w}x{h}.exe` appended.
   */
  function SaveAsName(base: string, w: nat, h: nat): (name: string) {
    RemoveAll(RemoveAll(base, ".unpacked"), ".exe") + SizeTag(w, h)
  }

  /** Removing `.unpacked` never eats into a trailing `.exe`. */
  lemma {:induction false} UnpackedRemovalKeepsExe(s: string)
    ensures EndsWith(s, ".exe") ==> EndsWith(RemoveAll(s, ".unpacked"), ".exe")
    decreases |s|
  {
    var pat := ".unpacked";
    if |s| >= |pat| {
      if s[..|pat|] == pat {
        if |s| >= |pat| + 4 {
          assert EndsWith(s, ".exe") ==> EndsWith(s[|pat|..], ".exe");
          UnpackedRemovalKeepsExe(s[|pat|..]);
        } else {
          assert s[|s| - 4] == pat[|s| - 4];
        }
      } else {
        var rest := s[1..];
        assert EndsWith(s, ".exe") ==> EndsWith(rest, ".exe");
        UnpackedRemovalKeepsExe(rest);
        var r := RemoveAll(rest, pat);
        assert EndsWith(r, ".exe") ==> EndsWith([s[0]] + r, ".exe") by {
          if |r| >= 4 {
            assert ([s[0]] + r)[|r| + 1 - 4..] == r[|r| - 4..];
          }
        }
      }
    }
  }

  /** A trailing `.exe` is always among the occurrences `RemoveAll` removes. */
  lemma {:induction false} TrailingExeRemoved(s: string)
    ensures EndsWith(s, ".exe") ==> Removals(s, ".exe") >= 1
    decreases |s|
  {
    if |s| >= 4 && s[..4] != ".exe" {
      if |s| > 4 {
        assert EndsWith(s, ".exe") ==> EndsWith(s[1..], ".exe");
        TrailingExeRemoved(s[1..]);
      } else {
        assert s[|s| - 4..] == s[..4];
      }
    }
  }

  lemma DotCounts()
    ensures Count(".unpacked", '.') == 1 && Count(".exe", '.') == 1
  {
    assert ".unpacked"[1..] == "unpacked";
    assert ".exe"[1..] == "exe";
  }

  /**
   * How long `SaveAsName(base, w, h)` is and how many `.` it holds, in terms
   * of the removals made from `base`.
   */
  lemma SaveAsNameMeasures(base: string, w: nat, h: nat)
    ensures var u := Removals(base, ".unpacked");
      var e := Removals(RemoveAll(base, ".unpacked"), ".exe");
      && |SaveAsName(base, w, h)| == |base| - 9 * u - 4 * e + |SizeTag(w, h)|
      && Count(SaveAsName(base, w, h), '.') == Count(base, '.') - u - e + 1
  {
    var b1 := RemoveAll(base, ".unpacked");
    var f := RemoveAll(b1, ".exe");
    RemoveAllLength(base, ".unpacked");
    RemoveAllLength(b1, ".exe");
    RemoveAllCount(base, ".unpacked", '.');
    RemoveAllCount(b1, ".exe", '.');
    DotCounts();
    CountAppend(f, SizeTag(w, h), '.');
  }

  /**
   * The patched copy never gets the original's name, whatever the name and
   * the resolution: writing it cannot overwrite the file it was read from.
   * Equal names would need exactly one removal (by the number of `.`) of
   * exactly the tag's length, while the trailing `.exe` such a name ends with
   * is removed in addition to it.
   */
  lemma SaveAsNameDiffers(base: string, w: nat, h: nat)
    ensures SaveAsName(base, w, h) != base
  {
    var b1 := RemoveAll(base, ".unpacked");
    var f := RemoveAll(b1, ".exe");
    var t := SizeTag(w, h);
    SaveAsNameMeasures(base, w, h);
    UnpackedRemovalKeepsExe(base);
    TrailingExeRemoved(b1);
    assert EndsWith(f + t, ".exe") by {
      assert (f + t)[|f + t| - 4..] == t[|t| - 4..];
    }
  }

  /** Removal starts after a prefix in which `pat` does not begin. */
  lemma {:induction false} RemoveAllAfter(a: string, b: string, pat: string)
    requires |pat| > 0
    requires forall k :: 0 <= k < |a| ==> !OccursAt(a + b, pat, k)
    ensures RemoveAll(a + b, pat) == a + RemoveAll(b, pat)
    decreases |a|
  {
    if a == [] {
      assert a + b == b;
    } else {
      var s := a + b;
      assert !OccursAt(s, pat, 0);
      assert s[1..] == a[1..] + b;
      forall k | 0 <= k < |a| - 1
        ensures !OccursAt(a[1..] + b, pat, k)
      {
        assert !OccursAt(s, pat, k + 1);
        if k + |pat| <= |a[1..] + b| {
          assert s[k + 1..k + 1 + |pat|] == (a[1..] + b)[k..k + |pat|];
        }
      }
      RemoveAllAfter(a[1..], b, pat);
      assert [a[0]] + (a[1..] + RemoveAll(b, pat)) == a + RemoveAll(b, pat);
    }
  }

  /** `pat` does not start at `k` when some position of it disagrees with `s`. */
  lemma NotOccursAt(s: string, pat: string, k: nat, j: nat)
    requires j < |pat| && k + j < |s| && s[k + j] != pat[j]
    ensures !OccursAt(s, pat, k)
  {
    if k + |pat| <= |s| {
      assert s[k..k + |pat|][j] == s[k + j];
    }
  }

  lemma DecimalExample()
    ensures Decimal(2560) == "2560" && Decimal(1440) == "1440"
  {
    Decimal2560();
    Decimal1440();
  }

  lemma Decimal2560()
    ensures Decimal(2560) == "2560"
  {
    assert Decimal(256) == "256";
  }

  lemma Decimal1440()
    ensures Decimal(1440) == "1440"
  {
    assert Decimal(144) == "144";
  }

  /** An occurrence at the front is removed and the scan resumes after it. */
  lemma RemoveAllFront(pat: string, b: string)
    requires |pat| > 0
    ensures RemoveAll(pat + b, pat) == RemoveAll(b, pat)
  {
    assert (pat + b)[..|pat|] == pat && (pat + b)[|pat|..] == b;
  }

  /** `"Game.exe.unpacked.exe".replace(".unpacked", "")` is `"Game.exe.exe"`. */
  lemma StripUnpackedExample()
    ensures RemoveAll("Game.exe" + ".unpacked" + ".exe", ".unpacked") == "Game.exe" + ".exe"
  {
    var g, p, e := "Game.exe", ".unpacked", ".exe";
    assert g + p + e == g + (p + e);
    NoUnpackedInGameExe();
    RemoveAllAfter(g, p + e, p);
    RemoveAllFront(p, e);
  }

  lemma NoUnpackedInGameExe()
    ensures forall k :: 0 <= k < |"Game.exe"| ==> !OccursAt("Game.exe" + (".unpacked" + ".exe"), ".unpacked", k)
  {
    var s, p := "Game.exe" + (".unpacked" + ".exe"), ".unpacked";
    NotOccursAt(s, p, 0, 0);
    NotOccursAt(s, p, 1, 0);
    NotOccursAt(s, p, 2, 0);
    NotOccursAt(s, p, 3, 0);
    NotOccursAt(s, p, 4, 1);
    NotOccursAt(s, p, 5, 0);
    NotOccursAt(s, p, 6, 0);
    NotOccursAt(s, p, 7, 0);
  }

  /** `"Game.exe.exe".replace(".exe", "")` is `"Game"`. */
  lemma StripExeExample()
    ensures RemoveAll("Game" + ".exe" + ".exe", ".exe") == "Game"
  {
    var g, e := "Game", ".exe";
    var s := g + (e + e);
    assert g + e + e == s;
    NotOccursAt(s, e, 0, 0);
    NotOccursAt(s, e, 1, 0);
    NotOccursAt(s, e, 2, 0);
    NotOccursAt(s, e, 3, 0);
    RemoveAllAfter(g, e + e, e);
    RemoveAllFront(e, e);
    RemoveAllFront(e, "");
    assert e + "" == e;
    assert g + "" == g;
  }

  lemma ExampleSpelling()
    ensures "Game.exe.unpacked.exe" == "Game.exe" + ".unpacked" + ".exe"
    ensures "Game.exe" + ".exe" == "Game" + ".exe" + ".exe"
  {
  }

  lemma ExampleTag()
    ensures SizeTag(2560, 1440) == "_" + "2560" + "x" + "1440" + ".exe"
  {
    DecimalExample();
  }

  lemma ExampleResult()
    ensures "Game" + ("_" + "2560" + "x" + "1440" + ".exe") == "Game_2560x1440.exe"
  {
  }

  /** The worked example: `Game.exe.unpacked.exe` at 2560 x 1440 is saved as `Game_2560x1440.exe`. */
  lemma SaveAsNameExample()
    ensures SaveAsName("Game.exe.unpacked.exe", 2560, 1440) == "Game_2560x1440.exe"
  {
    ExampleSpelling();
    StripUnpackedExample();
    StripExeExample();
    ExampleTag();
    ExampleResult();
  }

  /**
   * The base name of the output: the original's own when replacing it,
   * the `SaveAsName` derivation otherwise.
   */
  function OutputBaseName(replace: bool, base: string, w: nat, h: nat): (name: string) {
    if replace then base else SaveAsName(base, w, h)
  }

  /** The output carries the original's name exactly when replace mode is on. */
  lemma OutputOverwritesIffReplace(replace: bool, base: string, w: nat, h: nat)
    ensures OutputBaseName(replace, base, w, h) == base <==> replace
  {
    SaveAsNameDiffers(base, w, h);
  }

  /** The backup taken in replace mode: `original_game_path + ".bak"`. */
  function BackupPath(path: string): (r: string)
    ensures |r| == |path| + 4 && EndsWith(r, ".bak") && r[..|path|] == path
  {
    path + ".bak"
  }

  /** The backup never has the name of the file it backs up, which is about to be overwritten. */
  lemma BackupIsElsewhere(path: string)
    ensures BackupPath(path) != path
  {
  }

  /** Where the unpacker is expected to leave its output: `game_path + ".unpacked.exe"`. */
  function UnpackedPath(gamePath: string): (r: string)
    ensures |r| == |gamePath| + 13 && EndsWith(r, ".exe") && r[..|gamePath|] == gamePath
    ensures r[|gamePath|..] == ".unpacked.exe"
  {
    gamePath + ".unpacked.exe"
  }

  /**
   * The guard in front of the unpacking step: an unpacker path was given, it
   * exists (`slExists`, the file-system check), and the game path does not
   * contain `.unpacked`.
   */
  function ShouldUnpack(slPath: string, slExists: bool, gamePath: string): (b: bool) {
    |slPath| > 0 && slExists && !Contains(gamePath, ".unpacked")
  }

  /** The unpacker's own output is never unpacked again, whatever the unpacker settings. */
  lemma UnpackedNotUnpackedAgain(slPath: string, slExists: bool, gamePath: string)
    ensures !ShouldUnpack(slPath, slExists, UnpackedPath(gamePath))
  {
    var u := UnpackedPath(gamePath);
    assert u[|gamePath|..|gamePath| + 9] == ".unpacked";
    assert OccursAt(u, ".unpacked", |gamePath|);
  }
}
