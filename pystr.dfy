/** The handful of Python `str` operations the matcher relies on, with one-character
    separators where Python takes a string, stated over `seq<char>`. */
module PyStr {

  /** `s.startswith(prefix)`. */
  predicate StartsWith(s: string, prefix: string) {
    |prefix| <= |s| && s[..|prefix|] == prefix
  }

  /** `s.endswith(suffix)`. */
  predicate EndsWith(s: string, suffix: string) {
    |suffix| <= |s| && s[|s| - |suffix|..] == suffix
  }

  /** A concatenation starts with its first part and ends with its second. */
  lemma ConcatEnds(a: string, b: string)
    ensures StartsWith(a + b, a) && EndsWith(a + b, b)
  {
    assert (a + b)[..|a|] == a;
    assert (a + b)[|a|..] == b;
  }

  /** Ending with is transitive. */
  lemma EndsWithTrans(s: string, t: string, u: string)
    requires EndsWith(s, t) && EndsWith(t, u)
    ensures EndsWith(s, u)
  {
    assert s[|s| - |u|..] == s[|s| - |t|..][|t| - |u|..];
  }

  /** `s.rfind(c)`: the index of the last occurrence of `c`, or -1. */
  function RFind(s: string, c: char): (r: int)
    ensures -1 <= r < |s|
    ensures 0 <= r ==> s[r] == c
    ensures forall k :: r < k < |s| ==> s[k] != c
    decreases |s|
  {
    if |s| == 0 then -1
    else if s[|s| - 1] == c then |s| - 1
    else RFind(s[..|s| - 1], c)
  }

  /** `s.split(sep)` for a one-character separator: the pieces between the
      occurrences of `sep`, always at least one. Built from the back: the
      pieces before the last `sep`, then what follows it. */
  function Split(s: string, sep: char): (parts: seq<string>)
    ensures |parts| >= 1
    decreases |s|
  {
    var i := RFind(s, sep);
    if i < 0 then [s] else Split(s[..i], sep) + [s[i + 1..]]
  }

  /** `sep.join(parts)` for a one-character separator. */
  function Join(sep: char, parts: seq<string>): string
    decreases |parts|
  {
    if |parts| == 0 then ""
    else if |parts| == 1 then parts[0]
    else parts[0] + [sep] + Join(sep, parts[1..])
  }

  /** Joining one more piece appends the separator and that piece. */
  lemma {:induction false} JoinSnoc(sep: char, parts: seq<string>, x: string)
    requires |parts| >= 1
    ensures Join(sep, parts + [x]) == Join(sep, parts) + [sep] + x
    decreases |parts|
  {
    if |parts| == 1 {
      assert parts + [x] == [parts[0], x];
      assert [parts[0], x][1..] == [x];
    } else {
      assert (parts + [x])[1..] == parts[1..] + [x];
      JoinSnoc(sep, parts[1..], x);
    }
  }

  /** `sep.join(s.split(sep)) == s`: splitting loses nothing. */
  lemma {:induction false} JoinSplit(s: string, sep: char)
    ensures Join(sep, Split(s, sep)) == s
    decreases |s|
  {
    var i := RFind(s, sep);
    if i < 0 {
      assert Split(s, sep) == [s];
    } else {
      var front := Split(s[..i], sep);
      calc {
        Join(sep, Split(s, sep));
        Join(sep, front + [s[i + 1..]]);
        { JoinSnoc(sep, front, s[i + 1..]); }
        Join(sep, front) + [sep] + s[i + 1..];
        { JoinSplit(s[..i], sep); }
        s[..i] + [sep] + s[i + 1..];
        { assert s == s[..i] + [sep] + s[i + 1..]; }
        s;
      }
    }
  }

  /** `s.split(sep)[0]`. */
  function FirstPiece(s: string, sep: char): string {
    Split(s, sep)[0]
  }

  /** `s.split(sep)[0]` is the longest prefix of `s` free of `sep`. */
  lemma {:induction false} FirstPieceIsPrefix(s: string, sep: char)
    ensures StartsWith(s, FirstPiece(s, sep))
    ensures sep !in FirstPiece(s, sep)
    ensures |FirstPiece(s, sep)| < |s| ==> s[|FirstPiece(s, sep)|] == sep
    decreases |s|
  {
    var i := RFind(s, sep);
    if i >= 0 {
      var front := s[..i];
      FirstPieceIsPrefix(front, sep);
      FirstOfConcat(Split(front, sep), [s[i + 1..]]);
      var first := FirstPiece(front, sep);
      assert FirstPiece(s, sep) == first;
      assert s[..|first|] == front[..|first|];
      if |first| < |front| {
        assert s[|first|] == front[|first|];
      }
    }
  }

  /** The first element of a concatenation is the first of its non-empty left part. */
  lemma FirstOfConcat<T>(a: seq<T>, b: seq<T>)
    requires |a| > 0
    ensures (a + b)[0] == a[0]
  {
  }

  /** When `sep` occurs in `s`, `s.split(sep)[0]` stops right before its first occurrence. */
  lemma FirstPieceBeforeSep(s: string, sep: char)
    requires sep in s
    ensures |FirstPiece(s, sep)| < |s| && s[|FirstPiece(s, sep)|] == sep
    ensures s[..|FirstPiece(s, sep)|] == FirstPiece(s, sep) && sep !in FirstPiece(s, sep)
  {
    FirstPieceIsPrefix(s, sep);
  }

  /** `s.split(sep)[-1]`: what follows the last `sep`, or all of `s` when it
      holds none. */
  function LastPiece(s: string, sep: char): string {
    s[RFind(s, sep) + 1..]
  }

  /** The last piece ends `s`, holds no `sep`, and is preceded in `s` by `sep`
      unless it is all of `s`: it is the longest suffix of `s` free of `sep`. */
  lemma LastPieceIsSuffix(s: string, sep: char)
    ensures var last := LastPiece(s, sep);
      EndsWith(s, last) && sep !in last && (|last| < |s| ==> s[|s| - |last| - 1] == sep)
  {
  }

  /** The last piece `split` produces is the one `LastPiece` cuts off after the
      last separator. */
  lemma SplitLastPiece(s: string, sep: char)
    ensures var parts := Split(s, sep); parts[|parts| - 1] == LastPiece(s, sep)
  {
    var i := RFind(s, sep);
    if i >= 0 {
      var front, last := Split(s[..i], sep), s[i + 1..];
      assert Split(s, sep) == front + [last];
      LastOfConcat(front, [last]);
      assert LastPiece(s, sep) == last;
    } else {
      assert Split(s, sep) == [s];
      assert LastPiece(s, sep) == s[0..] == s;
    }
  }

  /** The last element of a concatenation is the last of its non-empty right part. */
  lemma LastOfConcat<T>(a: seq<T>, b: seq<T>)
    requires |b| > 0
    ensures (a + b)[|a + b| - 1] == b[|b| - 1]
  {
  }

  /** An occurrence of `c` with no `c` after it is the one `rfind` reports. */
  lemma RFindIsLast(s: string, c: char, k: int)
    requires 0 <= k < |s| && s[k] == c
    requires forall j :: k < j < |s| ==> s[j] != c
    ensures RFind(s, c) == k
  {
  }

  /** Cutting off the front of `s` shifts what `rfind` reports, or leaves nothing to find. */
  lemma RFindSuffix(s: string, c: char, n: nat)
    requires n <= |s|
    ensures RFind(s[n..], c) == if RFind(s, c) >= n then RFind(s, c) - n else -1
  {
    var r := RFind(s, c);
    if r >= n {
      RFindIsLast(s[n..], c, r - n);
    }
  }

  /** Cutting off the back of `s` after its last `c` does not move it. */
  lemma RFindPrefix(s: string, c: char, n: nat)
    requires RFind(s, c) < n <= |s|
    ensures RFind(s[..n], c) == RFind(s, c)
  {
    var r := RFind(s, c);
    if r >= 0 {
      RFindIsLast(s[..n], c, r);
    }
  }

  /** Python's slice `s[:-k]` for a positive `k`: all but the last `k`
      characters, and the empty string when `s` is shorter than that. */
  function DropLast(s: string, k: nat): (r: string)
    requires k > 0
    ensures StartsWith(s, r)
    ensures |r| == if |s| >= k then |s| - k else 0
  {
    if |s| >= k then s[..|s| - k] else ""
  }

  /** `c.upper()` on ASCII letters; every other character is left as it is. */
  function UpperChar(c: char): char {
    if 'a' <= c <= 'z' then (c as int - ('a' as int - 'A' as int)) as char else c
  }

  /** `c.lower()` on ASCII letters: a character that is not a capital and that
      agrees with `c` ignoring case. */
  function LowerChar(c: char): (r: char)
    ensures !('A' <= r <= 'Z')
    ensures UpperChar(r) == UpperChar(c)
  {
    if 'A' <= c <= 'Z' then (c as int + ('a' as int - 'A' as int)) as char else c
  }

  /** The two properties of `LowerChar` fix its value. */
  lemma LowerCharUnique(c: char, r: char)
    requires !('A' <= r <= 'Z') && UpperChar(r) == UpperChar(c)
    ensures r == LowerChar(c)
  {
  }

  /** `s.lower()`, character by character. */
  function Lower(s: string): (r: string)
    ensures |r| == |s|
  {
    seq(|s|, i requires 0 <= i < |s| => LowerChar(s[i]))
  }

  /** The lower-cased string holds no capital and agrees with `s` ignoring case. */
  lemma LowerIsCaseless(s: string)
    ensures !HasUpperCase(Lower(s))
    ensures forall i :: 0 <= i < |s| ==> UpperChar(Lower(s)[i]) == UpperChar(s[i])
  {
  }

  /** `s` ends with `suffix` once both are upper-cased. */
  predicate EndsWithIgnoringCase(s: string, suffix: string) {
    |suffix| <= |s| &&
    forall k :: 0 <= k < |suffix| ==> UpperChar(s[|s| - |suffix| + k]) == UpperChar(suffix[k])
  }

  /** The lower-cased string ends with a suffix that has no capitals exactly when
      the string ends with it ignoring case. */
  lemma LowerEndsWith(s: string, suffix: string)
    requires !HasUpperCase(suffix)
    ensures EndsWith(Lower(s), suffix) <==> EndsWithIgnoringCase(s, suffix)
  {
    var lower, d := Lower(s), |s| - |suffix|;
    if EndsWith(lower, suffix) {
      forall k | 0 <= k < |suffix|
        ensures UpperChar(s[d + k]) == UpperChar(suffix[k])
      {
        assert lower[d..][k] == suffix[k];
      }
    }
    if EndsWithIgnoringCase(s, suffix) {
      forall k | 0 <= k < |suffix| ensures lower[d..][k] == suffix[k] {
        assert !('A' <= suffix[k] <= 'Z');
        LowerCharUnique(s[d + k], suffix[k]);
      }
      assert lower[d..] == suffix;
    }
  }

  /** Some character of `s` is an ASCII capital letter. */
  predicate HasUpperCase(s: string) {
    exists k :: 0 <= k < |s| && 'A' <= s[k] <= 'Z'
  }

  /** Lower-casing leaves a suffix without capitals in place. */
  lemma LowerKeepsSuffix(s: string, suffix: string)
    requires EndsWith(s, suffix) && !HasUpperCase(suffix)
    ensures EndsWith(Lower(s), suffix)
  {
    var lower, d := Lower(s), |s| - |suffix|;
    forall k | 0 <= k < |suffix| ensures lower[d..][k] == suffix[k] {
      assert s[d + k] == s[d..][k] == suffix[k];
    }
    assert lower[d..] == suffix;
  }

  /** `s.rstrip(c)` for a single character. */
  function RStrip(s: string, c: char): (r: string)
    ensures StartsWith(s, r)
    ensures r == "" || r[|r| - 1] != c
    ensures forall k :: |r| <= k < |s| ==> s[k] == c
    decreases |s|
  {
    if |s| > 0 && s[|s| - 1] == c then RStrip(s[..|s| - 1], c) else s
  }

  /** Every character of `s` is `c` (true of the empty string). */
  predicate AllChar(s: string, c: char) {
    forall k :: 0 <= k < |s| ==> s[k] == c
  }
}
