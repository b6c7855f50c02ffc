/** The few java.lang.String operations the metadata retriever relies on, with the
    semantics the Java class library gives them: `trim`, `split` with a pattern that
    matches one char of a set (limit 0), `replaceAll` with such a pattern and an empty
    replacement, and the `toLowerCase().startsWith(...)` scheme test. */
module JavaLang {

  /** A Java reference that may be null. */
  datatype Option<+T> = None | Some(value: T) {
    function GetOr(default: T): T {
      match this
      case Some(v) => v
      case None => default
    }
  }

  /** No char of `s` belongs to `chars`. */
  predicate NoneOf(s: string, chars: set<char>) {
    forall k :: 0 <= k < |s| ==> s[k] !in chars
  }

  /** Every char of `s` belongs to `chars`. */
  predicate AllOf(s: string, chars: set<char>) {
    forall k :: 0 <= k < |s| ==> s[k] in chars
  }

  // ---------------------------------------------------------------- String.trim

  /** `String.trim` removes chars whose code is at most U+0020 (space and the controls). */
  predicate IsTrimmable(c: char) {
    c <= ' '
  }

  /** The index of the first char at or after `i` that `trim` keeps (`|s|` if none). */
  function TrimStartIndex(s: string, i: nat): (j: nat)
    requires i <= |s|
    ensures i <= j <= |s|
    ensures j == |s| || !IsTrimmable(s[j])
    decreases |s| - i
  {
    if i < |s| && IsTrimmable(s[i]) then TrimStartIndex(s, i + 1) else i
  }

  /** The end of what `trim` keeps of `s[lo..j]`: trailing trimmable chars are dropped. */
  function TrimEndIndex(s: string, lo: nat, j: nat): (e: nat)
    requires lo <= j <= |s|
    ensures lo <= e <= j
    ensures e == lo || !IsTrimmable(s[e - 1])
  {
    if j > lo && IsTrimmable(s[j - 1]) then TrimEndIndex(s, lo, j - 1) else j
  }

  /** Every char `TrimStartIndex` skips is trimmable. */
  lemma {:induction false} TrimStartSkipsTrimmable(s: string, i: nat)
    requires i <= |s|
    ensures forall k :: i <= k < TrimStartIndex(s, i) ==> IsTrimmable(s[k])
    decreases |s| - i
  {
    if i < |s| && IsTrimmable(s[i]) {
      TrimStartSkipsTrimmable(s, i + 1);
    }
  }

  /** Every char `TrimEndIndex` drops is trimmable. */
  lemma {:induction false} TrimEndSkipsTrimmable(s: string, lo: nat, j: nat)
    requires lo <= j <= |s|
    ensures forall k :: TrimEndIndex(s, lo, j) <= k < j ==> IsTrimmable(s[k])
  {
    if j > lo && IsTrimmable(s[j - 1]) {
      TrimEndSkipsTrimmable(s, lo, j - 1);
    }
  }

  /** `String.trim`: the slice between the first and the last char above U+0020. */
  function Trim(s: string): (r: string)
    ensures |r| <= |s|
    ensures r == [] || (!IsTrimmable(r[0]) && !IsTrimmable(r[|r| - 1]))
  {
    var st := TrimStartIndex(s, 0);
    s[st..TrimEndIndex(s, st, |s|)]
  }

  /** What `trim` keeps neither starts nor ends with a trimmable char, and it is empty
      exactly when every char of `s` is trimmable. */
  lemma TrimBounds(s: string)
    ensures var r := Trim(s);
      && (r == [] <==> forall k :: 0 <= k < |s| ==> IsTrimmable(s[k]))
      && (r != [] ==> !IsTrimmable(r[0]) && !IsTrimmable(r[|r| - 1]))
  {
    var st := TrimStartIndex(s, 0);
    var e := TrimEndIndex(s, st, |s|);
    TrimStartSkipsTrimmable(s, 0);
    TrimEndSkipsTrimmable(s, st, |s|);
    if st < |s| {
      assert !IsTrimmable(s[st]);
      assert e > st;
    }
  }

  /** Trimming never introduces a char: a string free of `chars` stays free of them. */
  lemma TrimKeepsNoneOf(s: string, chars: set<char>)
    requires NoneOf(s, chars)
    ensures NoneOf(Trim(s), chars)
  {
    var st := TrimStartIndex(s, 0);
    var r := Trim(s);
    forall k | 0 <= k < |r|
      ensures r[k] !in chars
    {
      assert r[k] == s[st + k];
    }
  }

  /** `TrimStartIndex` stops at the first char from `i` on that is not trimmable. */
  lemma {:induction false} TrimStartAt(s: string, i: nat, j: nat)
    requires i <= j <= |s| && forall k :: i <= k < j ==> IsTrimmable(s[k])
    requires j == |s| || !IsTrimmable(s[j])
    ensures TrimStartIndex(s, i) == j
    decreases j - i
  {
    if i < j {
      TrimStartAt(s, i + 1, j);
    }
  }

  /** `TrimEndIndex` stops after the last char before `j` that is not trimmable. */
  lemma {:induction false} TrimEndAt(s: string, lo: nat, j: nat, e: nat)
    requires lo <= e <= j <= |s| && forall k :: e <= k < j ==> IsTrimmable(s[k])
    requires e == lo || !IsTrimmable(s[e - 1])
    ensures TrimEndIndex(s, lo, j) == e
    decreases j
  {
    if e < j {
      TrimEndAt(s, lo, j - 1, e);
    }
  }

  /** `trim` removes exactly the leading and trailing chars at or below U+0020: with
      `lead` and `trail` made of such chars and `core` starting and ending above it,
      `(lead + core + trail).trim()` is `core`. */
  lemma TrimStrips(lead: string, core: string, trail: string)
    requires forall k :: 0 <= k < |lead| ==> IsTrimmable(lead[k])
    requires forall k :: 0 <= k < |trail| ==> IsTrimmable(trail[k])
    requires core == [] || (!IsTrimmable(core[0]) && !IsTrimmable(core[|core| - 1]))
    ensures Trim(lead + core + trail) == core
  {
    var s := lead + core + trail;
    if core == [] {
      assert forall k :: 0 <= k < |s| ==> IsTrimmable(s[k]) by {
        forall k | 0 <= k < |s| ensures IsTrimmable(s[k]) {
          if k < |lead| { assert s[k] == lead[k]; } else { assert s[k] == trail[k - |lead|]; }
        }
      }
      TrimStartAt(s, 0, |s|);
      TrimEndAt(s, |s|, |s|, |s|);
    } else {
      var e := |lead| + |core|;
      assert forall k :: 0 <= k < |lead| ==> IsTrimmable(s[k]) by {
        forall k | 0 <= k < |lead| ensures IsTrimmable(s[k]) { assert s[k] == lead[k]; }
      }
      assert forall k :: e <= k < |s| ==> IsTrimmable(s[k]) by {
        forall k | e <= k < |s| ensures IsTrimmable(s[k]) { assert s[k] == trail[k - e]; }
      }
      assert s[|lead|] == core[0] && s[e - 1] == core[|core| - 1];
      TrimStartAt(s, 0, |lead|);
      TrimEndAt(s, |lead|, |s|, e);
      assert s[|lead|..e] == core;
    }
  }

  /** A string that neither starts nor ends with a trimmable char is its own trim. */
  lemma TrimOfTrimmed(s: string)
    requires s == [] || (!IsTrimmable(s[0]) && !IsTrimmable(s[|s| - 1]))
    ensures Trim(s) == s
  {
  }

  // ---------------------------------------------------------------- String.split

  /** The pieces of `s` between the chars of `delims`, empty pieces included:
      `n` delimiters give `n + 1` pieces. */
  function Segments(s: string, delims: set<char>): (r: seq<string>)
    ensures |r| >= 1
    ensures forall i :: 0 <= i < |r| ==> NoneOf(r[i], delims)
    ensures |r| == 1 <==> NoneOf(s, delims)
  {
    if s == [] then [""]
    else
      var rest := Segments(s[1..], delims);
      if s[0] in delims then [""] + rest
      else
        assert NoneOf(s, delims) <==> NoneOf(s[1..], delims) by {
          if NoneOf(s[1..], delims) {
            forall k | 0 <= k < |s| ensures s[k] !in delims {
              if k > 0 { assert s[k] == s[1..][k - 1]; }
            }
          }
        }
        [[s[0]] + rest[0]] + rest[1..]
  }

  /** `parts` with its trailing empty strings removed, as `split` does when its limit is 0. */
  function DropTrailingEmpty(parts: seq<string>): (r: seq<string>)
    ensures |r| <= |parts| && r == parts[..|r|]
    ensures forall i :: |r| <= i < |parts| ==> parts[i] == []
    ensures r == [] || r[|r| - 1] != []
  {
    if parts != [] && parts[|parts| - 1] == [] then DropTrailingEmpty(parts[..|parts| - 1])
    else parts
  }

  /** `s.split(regex)` where `regex` matches exactly one char of `delims`: without a
      match the answer is `[s]` (so `"".split("/")` is `[""]`); otherwise the pieces
      between matches, trailing empty pieces dropped (so `"4/".split("/")` is `["4"]`
      and `"/".split("/")` is `[]`). */
  function Split(s: string, delims: set<char>): (r: seq<string>)
    ensures forall i :: 0 <= i < |r| ==> NoneOf(r[i], delims)
  {
    if NoneOf(s, delims) then [s] else DropTrailingEmpty(Segments(s, delims))
  }

  /** `Join(parts, sep)` is `String.join(sep, parts)`. */
  function Join(parts: seq<string>, sep: char): string
    requires |parts| >= 1
  {
    if |parts| == 1 then parts[0] else parts[0] + [sep] + Join(parts[1..], sep)
  }

  /** Cutting at one separator and joining again with it gives the string back. */
  lemma {:induction false} JoinSegments(s: string, sep: char)
    ensures Join(Segments(s, {sep}), sep) == s
  {
    if s != [] {
      var rest := Segments(s[1..], {sep});
      JoinSegments(s[1..], sep);
      if s[0] == sep {
        assert Segments(s, {sep}) == [""] + rest;
        assert ([""] + rest)[1..] == rest;
      } else {
        var parts := [[s[0]] + rest[0]] + rest[1..];
        assert Segments(s, {sep}) == parts;
        if |rest| == 1 {
          assert Join(parts, sep) == [s[0]] + rest[0];
        } else {
          assert parts[1..] == rest[1..];
          assert Join(parts, sep) == [s[0]] + rest[0] + [sep] + Join(rest[1..], sep);
        }
      }
    }
  }

  /** Index of the first char of `s` in `delims`, or `|s|` when there is none. */
  function FirstIndex(s: string, delims: set<char>): (i: nat)
    ensures i <= |s|
    ensures NoneOf(s[..i], delims)
    ensures i < |s| ==> s[i] in delims
  {
    if s == [] || s[0] in delims then 0
    else
      var j := FirstIndex(s[1..], delims);
      assert s[..j + 1] == [s[0]] + s[1..][..j];
      j + 1
  }

  /** `FirstIndex` is the one index before which no delimiter occurs and at which one does. */
  lemma {:induction false} FirstIndexAt(s: string, delims: set<char>, i: nat)
    requires i <= |s| && NoneOf(s[..i], delims)
    requires i < |s| ==> s[i] in delims
    ensures FirstIndex(s, delims) == i
  {
    if i > 0 {
      assert s[0] == s[..i][0];
      assert s[1..][..i - 1] == s[..i][1..];
      FirstIndexAt(s[1..], delims, i - 1);
    }
  }

  lemma {:induction false} SegmentsFirst(s: string, delims: set<char>)
    ensures Segments(s, delims)[0] == s[..FirstIndex(s, delims)]
  {
    if s != [] && s[0] !in delims {
      SegmentsFirst(s[1..], delims);
      assert s[..FirstIndex(s, delims)] == [s[0]] + s[1..][..FirstIndex(s[1..], delims)];
    }
  }

  lemma {:induction false} SegmentsAllEmpty(s: string, delims: set<char>)
    requires AllOf(s, delims)
    ensures forall i :: 0 <= i < |Segments(s, delims)| ==> Segments(s, delims)[i] == []
  {
    if s != [] {
      SegmentsAllEmpty(s[1..], delims);
    }
  }

  lemma {:induction false} SegmentsSomeNonEmpty(s: string, delims: set<char>, k: nat)
    requires k < |s| && s[k] !in delims
    ensures exists i :: 0 <= i < |Segments(s, delims)| && Segments(s, delims)[i] != []
  {
    var r := Segments(s, delims);
    if s[0] !in delims {
      assert r[0] != [];
    } else {
      SegmentsSomeNonEmpty(s[1..], delims, k - 1);
      var rest := Segments(s[1..], delims);
      var i :| 0 <= i < |rest| && rest[i] != [];
      assert r[i + 1] == rest[i];
    }
  }

  /** `split` gives no pieces exactly when `s` is non-empty and made of delimiters only;
      then taking piece 0 throws `ArrayIndexOutOfBoundsException`. */
  lemma SplitEmptyIff(s: string, delims: set<char>)
    ensures Split(s, delims) == [] <==> s != [] && AllOf(s, delims)
  {
    var segs := Segments(s, delims);
    if s != [] && AllOf(s, delims) {
      assert s[0] in delims;
      SegmentsAllEmpty(s, delims);
    }
    if s != [] && !AllOf(s, delims) && !NoneOf(s, delims) {
      var k :| 0 <= k < |s| && s[k] !in delims;
      SegmentsSomeNonEmpty(s, delims, k);
      var i :| 0 <= i < |segs| && segs[i] != [];
      assert |Split(s, delims)| > i;
    }
  }

  /** The first piece of a non-empty split is the text before the first delimiter. */
  lemma SplitFirst(s: string, delims: set<char>)
    requires Split(s, delims) != []
    ensures Split(s, delims)[0] == s[..FirstIndex(s, delims)]
  {
    if !NoneOf(s, delims) {
      SegmentsFirst(s, delims);
    } else {
      FirstIndexAt(s, delims, |s|);
    }
  }

  lemma {:induction false} SegmentsLast(s: string, delims: set<char>, i: nat)
    requires i <= |s| && (i == 0 || s[i - 1] in delims) && NoneOf(s[i..], delims)
    ensures Segments(s, delims)[|Segments(s, delims)| - 1] == s[i..]
  {
    if i == 0 {
      if s != [] {
        assert s[1..] == s[i..][1..];
        SegmentsLast(s[1..], delims, 0);
      }
    } else {
      assert s[1..][i - 1..] == s[i..];
      assert i - 1 == 0 || s[1..][i - 2] == s[i - 1];
      SegmentsLast(s[1..], delims, i - 1);
      if s[0] !in delims {
        assert i >= 2 && s[1..][i - 2] in delims;
        assert |Segments(s[1..], delims)| > 1;
      }
    }
  }

  /** When `s` does not end with a delimiter, the last piece of its split is the text
      after the last delimiter (`i` is where that text starts). */
  lemma SplitLast(s: string, delims: set<char>, i: nat)
    requires s != [] && s[|s| - 1] !in delims
    requires i <= |s| && (i == 0 || s[i - 1] in delims) && NoneOf(s[i..], delims)
    ensures Split(s, delims) != [] && Split(s, delims)[|Split(s, delims)| - 1] == s[i..]
    ensures i > 0 ==> |Split(s, delims)| > 1
  {
    assert i < |s|;
    if NoneOf(s, delims) {
      assert i == 0 && s[i..] == s;
    } else {
      SegmentsLast(s, delims, i);
      var segs := Segments(s, delims);
      assert segs[|segs| - 1] != [];
    }
  }

  /** A string made of delimiters only splits into as many empty pieces as it has chars,
      plus one. */
  lemma {:induction false} SegmentsOfDelims(b: string, delims: set<char>)
    requires AllOf(b, delims)
    ensures Segments(b, delims) == seq(|b| + 1, _ => "")
  {
    if b != [] {
      SegmentsOfDelims(b[1..], delims);
      assert Segments(b, delims) == [""] + seq(|b|, _ => "");
    }
  }

  /** Delimiters appended to `a` only add empty pieces at the end of its cut. */
  lemma {:induction false} SegmentsAppendDelims(a: string, b: string, delims: set<char>)
    requires AllOf(b, delims)
    ensures Segments(a + b, delims) == Segments(a, delims) + seq(|b|, _ => "")
  {
    if a == [] {
      assert a + b == b;
      SegmentsOfDelims(b, delims);
    } else {
      assert (a + b)[1..] == a[1..] + b;
      SegmentsAppendDelims(a[1..], b, delims);
      var rest := Segments(a[1..], delims);
      var empties: seq<string> := seq(|b|, _ => "");
      if a[0] !in delims {
        assert (rest + empties)[0] == rest[0];
        assert (rest + empties)[1..] == rest[1..] + empties;
      }
    }
  }

  /** The last piece of a cut of a non-empty string that does not end with a delimiter
      is not empty. */
  lemma {:induction false} SegmentsLastNonEmpty(a: string, delims: set<char>)
    requires a != [] && a[|a| - 1] !in delims
    ensures Segments(a, delims)[|Segments(a, delims)| - 1] != []
  {
    if |a| > 1 {
      assert a[1..][|a[1..]| - 1] == a[|a| - 1];
      SegmentsLastNonEmpty(a[1..], delims);
    }
  }

  /** Dropping the trailing empty pieces added to a list that ends with a non-empty piece
      gives the list back. */
  lemma {:induction false} DropTrailingEmpties(parts: seq<string>, n: nat)
    requires parts != [] && parts[|parts| - 1] != []
    ensures DropTrailingEmpty(parts + seq(n, _ => "")) == parts
  {
    if n == 0 {
      assert parts + seq(n, _ => "") == parts;
    } else {
      var longer := parts + seq(n, _ => "");
      assert longer[..|longer| - 1] == parts + seq(n - 1, _ => "");
      DropTrailingEmpties(parts, n - 1);
    }
  }

  /** Trailing delimiters make no difference to `split` (as `"4/".split("/")` is
      `["4"]`), provided something other than a delimiter comes before them. */
  lemma SplitIgnoresTrailingDelims(a: string, b: string, delims: set<char>)
    requires a != [] && a[|a| - 1] !in delims && AllOf(b, delims)
    ensures Split(a + b, delims) == Split(a, delims)
  {
    SegmentsAppendDelims(a, b, delims);
    SegmentsLastNonEmpty(a, delims);
    DropTrailingEmpties(Segments(a, delims), |b|);
    DropTrailingEmpties(Segments(a, delims), 0);
    var segs := Segments(a, delims);
    assert segs + seq(0, _ => "") == segs;
    if NoneOf(a, delims) {
      SegmentsFirst(a, delims);
      FirstIndexAt(a, delims, |a|);
      assert a[..|a|] == a;
      assert segs == [a];
    }
    assert Split(a, delims) == segs;
    if b != [] {
      assert (a + b)[|a|] == b[0];
      assert !NoneOf(a + b, delims);
    } else {
      assert a + b == a;
    }
  }

  // ---------------------------------------------------------------- String.replaceAll

  /** `s.replaceAll(regex, "")` where `regex` matches exactly one char of `chars`. */
  function DeleteChars(s: string, chars: set<char>): (r: string)
    ensures |r| <= |s|
  {
    if s == [] then []
    else
      var rest := DeleteChars(s[1..], chars);
      if s[0] in chars then rest else [s[0]] + rest
  }

  /** No char of `chars` is left. */
  lemma {:induction false} DeleteCharsClean(s: string, chars: set<char>)
    ensures NoneOf(DeleteChars(s, chars), chars)
  {
    if s != [] {
      DeleteCharsClean(s[1..], chars);
    }
  }

  /** A string without any char of `chars` is left as it is. */
  lemma {:induction false} DeleteCharsOfClean(s: string, chars: set<char>)
    requires NoneOf(s, chars)
    ensures DeleteChars(s, chars) == s
  {
    if s != [] {
      DeleteCharsOfClean(s[1..], chars);
    }
  }

  /** Exactly the chars outside `chars` survive. */
  lemma {:induction false} DeleteCharsKeeps(s: string, chars: set<char>)
    ensures forall c :: c in DeleteChars(s, chars) <==> c in s && c !in chars
  {
    if s != [] {
      DeleteCharsKeeps(s[1..], chars);
      assert forall c :: c in s <==> c == s[0] || c in s[1..];
    }
  }

  /** Deleting chars from a concatenation deletes them from each part. */
  lemma {:induction false} DeleteCharsAppend(a: string, b: string, chars: set<char>)
    ensures DeleteChars(a + b, chars) == DeleteChars(a, chars) + DeleteChars(b, chars)
  {
    if a != [] {
      assert (a + b)[1..] == a[1..] + b;
      DeleteCharsAppend(a[1..], b, chars);
    } else {
      assert a + b == b;
    }
  }

  /** A deleted char between two clean strings simply disappears. */
  lemma DeleteCharsBetween(a: string, c: char, b: string, chars: set<char>)
    requires NoneOf(a, chars) && NoneOf(b, chars) && c in chars
    ensures DeleteChars(a + [c] + b, chars) == a + b
  {
    DeleteCharsAppend(a + [c], b, chars);
    DeleteCharsAppend(a, [c], chars);
    DeleteCharsOfClean(a, chars);
    DeleteCharsOfClean(b, chars);
    assert [c][1..] == [];
  }

  // ---------------------------------------------------------------- case and prefixes

  /** `Character.toLowerCase` on ASCII letters. */
  function LowerAscii(c: char): char {
    if 'A' <= c <= 'Z' then (c as int + 32) as char else c
  }

  /** `String.toLowerCase`, char by char. */
  function ToLowerCase(s: string): (r: string)
    ensures |r| == |s|
    ensures forall k :: 0 <= k < |r| ==> !('A' <= r[k] <= 'Z')
    ensures forall k :: 0 <= k < |r| && r[k] != s[k] ==> 'A' <= s[k] <= 'Z'
  {
    seq(|s|, k requires 0 <= k < |s| => LowerAscii(s[k]))
  }

  /** `s.startsWith(prefix)`. */
  predicate StartsWith(s: string, prefix: string) {
    |prefix| <= |s| && s[..|prefix|] == prefix
  }

  /** `s.endsWith("/")`. */
  predicate EndsWithSlash(s: string) {
    |s| > 0 && s[|s| - 1] == '/'
  }
}
