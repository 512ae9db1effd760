/** File-name handling of `process_xliff`: the extension check made before
    anything is read, and the derivation of the output path with Python's
    `str.replace`, which rewrites every occurrence of the pattern. */
module Paths {

  /** ASCII lower-casing of one character (Python's `str.lower` restricted to ASCII). */
  function LowerChar(c: char): char {
    if 'A' <= c <= 'Z' then (c as int + 32) as char else c
  }

  /** `s.lower()`: every character lower-cased, nothing else changes. */
  function Lower(s: string): (r: string)
    ensures |r| == |s|
    ensures forall i :: 0 <= i < |s| ==> r[i] == LowerChar(s[i])
    ensures forall i :: 0 <= i < |r| ==> !('A' <= r[i] <= 'Z')
  {
    seq(|s|, i requires 0 <= i < |s| => LowerChar(s[i]))
  }

  /** `s.endswith(suffix)`. */
  predicate EndsWith(s: string, suffix: string) {
    |suffix| <= |s| && s[|s| - |suffix|..] == suffix
  }

  /** `pat` occurs in `s` starting at index `i`. */
  predicate OccursAt(s: string, pat: string, i: int) {
    0 <= i && i + |pat| <= |s| && s[i..i + |pat|] == pat
  }

  /** Number of occurrences `str.replace` rewrites: found left to right,
      never overlapping one already taken. */
  function Occurrences(s: string, pat: string): nat
    requires |pat| > 0
    decreases |s|
  {
    if |s| < |pat| then 0
    else if s[..|pat|] == pat then 1 + Occurrences(s[|pat|..], pat)
    else Occurrences(s[1..], pat)
  }

  /** `s.replace(pat, rep)`: scanning left to right, each occurrence of `pat`
      is replaced by `rep` and the scan resumes after it. */
  function ReplaceAll(s: string, pat: string, rep: string): string
    requires |pat| > 0
    decreases |s|
  {
    if |s| < |pat| then s
    else if s[..|pat|] == pat then rep + ReplaceAll(s[|pat|..], pat, rep)
    else [s[0]] + ReplaceAll(s[1..], pat, rep)
  }

  /** A string in which the pattern occurs nowhere is returned unchanged. */
  lemma ReplaceAllIdentity(s: string, pat: string, rep: string)
    requires |pat| > 0
    requires forall i :: !OccursAt(s, pat, i)
    ensures ReplaceAll(s, pat, rep) == s
  {
    CountedIsOccurrence(s, pat);
    ReplaceAllUncounted(s, pat, rep);
  }

  /** Helper: a string in which the scan counts no occurrence is returned
      unchanged. */
  lemma {:induction false} ReplaceAllUncounted(s: string, pat: string, rep: string)
    requires |pat| > 0
    requires Occurrences(s, pat) == 0
    ensures ReplaceAll(s, pat, rep) == s
    decreases |s|
  {
    if |s| >= |pat| {
      assert s[..|pat|] != pat;
      ReplaceAllUncounted(s[1..], pat, rep);
      assert [s[0]] + s[1..] == s;
    }
  }

  /** Each rewritten occurrence changes the length by `|rep| - |pat|`. */
  lemma {:induction false} ReplaceAllLength(s: string, pat: string, rep: string)
    requires |pat| > 0
    ensures |ReplaceAll(s, pat, rep)| == |s| + Occurrences(s, pat) * (|rep| - |pat|)
    decreases |s|
  {
    if |s| < |pat| {
    } else if s[..|pat|] == pat {
      var rest, k := s[|pat|..], |rep| - |pat|;
      ReplaceAllLength(rest, pat, rep);
      var n := Occurrences(rest, pat);
      assert Occurrences(s, pat) == 1 + n;
      assert ReplaceAll(s, pat, rep) == rep + ReplaceAll(rest, pat, rep);
      assert |ReplaceAll(rest, pat, rep)| == |rest| + n * k;
      assert (1 + n) * k == k + n * k by { MulSucc(n, k); }
    } else {
      var rest := s[1..];
      ReplaceAllLength(rest, pat, rep);
      assert Occurrences(s, pat) == Occurrences(rest, pat);
      assert ReplaceAll(s, pat, rep) == [s[0]] + ReplaceAll(rest, pat, rep);
    }
  }

  /** Distributivity step used by the length lemma. */
  lemma MulSucc(n: int, k: int)
    ensures (1 + n) * k == k + n * k
  {
  }

  /** If `pat` occurs anywhere in `s`, the left-to-right scan rewrites at least
      one occurrence (possibly an earlier, overlapping one). */
  lemma {:induction false} OccurrenceIsCounted(s: string, pat: string, i: int)
    requires |pat| > 0
    requires OccursAt(s, pat, i)
    ensures Occurrences(s, pat) >= 1
    decreases |s|
  {
    if s[..|pat|] != pat {
      assert i != 0;
      assert OccursAt(s[1..], pat, i - 1) by {
        assert s[1..][i - 1..i - 1 + |pat|] == s[i..i + |pat|];
      }
      OccurrenceIsCounted(s[1..], pat, i - 1);
    }
  }

  /** Conversely, every occurrence the scan counts is an occurrence of the
      pattern at some index. */
  lemma {:induction false} CountedIsOccurrence(s: string, pat: string)
    requires |pat| > 0
    ensures Occurrences(s, pat) >= 1 ==> exists i :: OccursAt(s, pat, i)
    decreases |s|
  {
    if |s| >= |pat| {
      if s[..|pat|] == pat {
        assert OccursAt(s, pat, 0);
      } else {
        CountedIsOccurrence(s[1..], pat);
        if Occurrences(s[1..], pat) >= 1 {
          var i :| OccursAt(s[1..], pat, i);
          assert s[i + 1..i + 1 + |pat|] == s[1..][i..i + |pat|];
          assert OccursAt(s, pat, i + 1);
        }
      }
    }
  }

  /** The scan rewrites something exactly when the pattern occurs somewhere. */
  lemma OccurrencesMatchPositions(s: string, pat: string)
    requires |pat| > 0
    ensures Occurrences(s, pat) >= 1 <==> exists i :: OccursAt(s, pat, i)
  {
    CountedIsOccurrence(s, pat);
    if exists i :: OccursAt(s, pat, i) {
      var i :| OccursAt(s, pat, i);
      OccurrenceIsCounted(s, pat, i);
    }
  }

  /** When the replacement itself ends with the pattern, a string that ends
      with the pattern still does so after every occurrence is rewritten. */
  lemma {:induction false} ReplaceAllKeepsSuffix(s: string, pat: string, rep: string)
    requires |pat| > 0
    requires EndsWith(s, pat) && EndsWith(rep, pat)
    ensures EndsWith(ReplaceAll(s, pat, rep), pat)
    decreases |s|
  {
    var head, rest;
    if s[..|pat|] == pat {
      head, rest := rep, s[|pat|..];
      assert s == pat + rest;
      ReplaceAllAtMatch(pat, rest, rep);
    } else {
      head, rest := [s[0]], s[1..];
      assert s == [s[0]] + rest;
      ReplaceAllAtMiss(s, pat, rep);
    }
    // Here ReplaceAll(s, pat, rep) == head + ReplaceAll(rest, pat, rep).
    if |rest| >= |pat| {
      EndsWithTail(s[..|s| - |rest|], rest, pat);
      ReplaceAllKeepsSuffix(rest, pat, rep);
      EndsWithPrefixed(head, ReplaceAll(rest, pat, rep), pat);
    } else {
      ReplaceAllShort(rest, pat, rep);
      ShortRestKeepsSuffix(pat, rep, rest);
    }
  }

  /** A string shorter than the pattern is returned unchanged. */
  lemma ReplaceAllShort(s: string, pat: string, rep: string)
    requires 0 < |pat| && |s| < |pat|
    ensures ReplaceAll(s, pat, rep) == s
  {
  }

  /** The suffix of a concatenation lies in its right part when that part is long enough. */
  lemma EndsWithTail(x: string, y: string, pat: string)
    requires EndsWith(x + y, pat) && |y| >= |pat|
    ensures EndsWith(y, pat)
  {
  }

  /** Prefixing does not change a suffix. */
  lemma EndsWithPrefixed(x: string, y: string, pat: string)
    requires EndsWith(y, pat)
    ensures EndsWith(x + y, pat)
  {
  }

  /** Helper for `ReplaceAllKeepsSuffix`: the text left after the last
      rewritten occurrence is too short to hold the pattern. */
  lemma ShortRestKeepsSuffix(pat: string, rep: string, rest: string)
    requires |rest| < |pat|
    requires EndsWith(rep, pat) && EndsWith(pat + rest, pat)
    ensures EndsWith(rep + rest, pat)
  {
  }

  /** The suffix the extension check looks for: `"." + ext.lower()`. */
  function ExtensionSuffix(ext: string): (r: string)
    ensures |r| == |ext| + 1 && r[0] == '.'
  {
    "." + Lower(ext)
  }

  /** The replacement written in its place: `".modified." + ext.lower()`. */
  function ModifiedSuffix(ext: string): (r: string)
    ensures EndsWith(r, ExtensionSuffix(ext))
    ensures |r| == |ExtensionSuffix(ext)| + 9
  {
    ".modified" + ExtensionSuffix(ext)
  }

  /** The extension check: the path, taken case-sensitively, must end with
      a dot followed by the lower-cased extension. */
  predicate HasExtension(path: string, ext: string) {
    EndsWith(path, ExtensionSuffix(ext))
  }

  /** The output path: every occurrence of `.ext` rewritten to `.modified.ext`. */
  function OutputPath(path: string, ext: string): string {
    ReplaceAll(path, ExtensionSuffix(ext), ModifiedSuffix(ext))
  }

  /** A path that passes the extension check yields an output path that is
      longer by nine characters per rewritten occurrence, rewrites at least one
      occurrence, therefore differs from the input, and still passes the
      extension check. */
  lemma OutputPathProperties(path: string, ext: string)
    requires HasExtension(path, ext)
    ensures Occurrences(path, ExtensionSuffix(ext)) >= 1
    ensures |OutputPath(path, ext)| == |path| + 9 * Occurrences(path, ExtensionSuffix(ext))
    ensures |OutputPath(path, ext)| > |path|
    ensures OutputPath(path, ext) != path
    ensures HasExtension(OutputPath(path, ext), ext)
  {
    var pat := ExtensionSuffix(ext);
    var rep := ModifiedSuffix(ext);
    OccurrenceIsCounted(path, pat, |path| - |pat|);
    ReplaceAllLength(path, pat, rep);
    ReplaceAllKeepsSuffix(path, pat, rep);
  }

  /** The check is case-sensitive on the path: `X.XLF` is refused for the
      extension `xlf`, while the extension argument itself is lower-cased. */
  lemma ExtensionCaseSensitivity()
    ensures !HasExtension("X.XLF", "xlf")
    ensures HasExtension("x.xlf", "XLF")
    ensures !HasExtension("x.XLF", "XLF")
  {
    assert ExtensionSuffix("xlf") == ".xlf" by { assert Lower("xlf") == "xlf"; }
    assert ExtensionSuffix("XLF") == ".xlf" by { assert Lower("XLF") == "xlf"; }
    assert "X.XLF"[1..] == ".XLF" && ".XLF"[1] != ".xlf"[1];
    assert "x.xlf"[1..] == ".xlf";
    assert "x.XLF"[1..] == ".XLF";
  }

  /** Every occurrence is rewritten, not only the final extension: a
      directory named like the file (`d.xlf/a.xlf`) is renamed in the output
      path too (`d.modified.xlf/a.modified.xlf`). */
  lemma OutputPathRewritesDirectories(d: char, a: char)
    requires d != '.' && a != '.'
    ensures OutputPath([d] + ".xlf/" + [a] + ".xlf", "xlf")
         == [d] + ".modified.xlf/" + [a] + ".modified.xlf"
  {
    XlfSuffixes();
    ReplaceInDirectoryPath(d, a);
  }

  /** The two suffixes for the extension `xlf`. */
  lemma XlfSuffixes()
    ensures ExtensionSuffix("xlf") == ".xlf"
    ensures ModifiedSuffix("xlf") == ".modified.xlf"
  {
  }

  /** Helper: the rewrite of `d.xlf/a.xlf`, one character or occurrence
      at a time. */
  lemma ReplaceInDirectoryPath(d: char, a: char)
    requires d != '.' && a != '.'
    ensures ReplaceAll([d] + ".xlf/" + [a] + ".xlf", ".xlf", ".modified.xlf")
         == [d] + ".modified.xlf/" + [a] + ".modified.xlf"
  {
    var pat, rep := ".xlf", ".modified.xlf";
    var s1 := [a] + pat;
    var s2 := ['/'] + s1;
    var s3 := pat + s2;
    var s4 := [d] + s3;
    ReplaceAllAtMatch(pat, [], rep);
    ReplaceAllAtChar(a, pat, pat, rep);
    ReplaceAllAtChar('/', s1, pat, rep);
    ReplaceAllAtMatch(pat, s2, rep);
    ReplaceAllAtChar(d, s3, pat, rep);
    assert ReplaceAll(s4, pat, rep) == [d] + (rep + (['/'] + ([a] + (rep + []))));
    assert s4 == [d] + ".xlf/" + [a] + ".xlf";
  }

  /** One step of the scan at an occurrence. */
  lemma ReplaceAllAtMatch(pat: string, rest: string, rep: string)
    requires |pat| > 0
    ensures ReplaceAll(pat + rest, pat, rep) == rep + ReplaceAll(rest, pat, rep)
  {
  }

  /** One step of the scan where no occurrence starts. */
  lemma ReplaceAllAtMiss(s: string, pat: string, rep: string)
    requires 0 < |pat| <= |s| && s[..|pat|] != pat
    ensures ReplaceAll(s, pat, rep) == [s[0]] + ReplaceAll(s[1..], pat, rep)
  {
  }

  /** One step of the scan at a character that cannot start an occurrence. */
  lemma ReplaceAllAtChar(c: char, rest: string, pat: string, rep: string)
    requires |pat| > 0 && c != pat[0]
    ensures ReplaceAll([c] + rest, pat, rep) == [c] + ReplaceAll(rest, pat, rep)
  {
  }
}
