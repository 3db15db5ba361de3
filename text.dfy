/** The pieces of Python's `str` behaviour that the modelled code relies on. */
module Text {
  import opened Wrappers

  /** `str.isspace()`; the regular-expression class `\s` of a `str` pattern is the same set. */
  predicate IsSpace(c: char)
  {
    || c == ' '
    || ('\t' <= c <= '\r')
    || ('\U{1C}' <= c <= '\U{1F}')
    || c == '\U{85}' || c == '\U{A0}' || c == '\U{1680}'
    || ('\U{2000}' <= c <= '\U{200A}')
    || c == '\U{2028}' || c == '\U{2029}' || c == '\U{202F}' || c == '\U{205F}' || c == '\U{3000}'
  }

  /** The ASCII digits `0`-`9`. */
  predicate IsDigit(c: char)
  {
    '0' <= c <= '9'
  }

  predicate AllDigits(s: string)
  {
    forall k :: 0 <= k < |s| ==> IsDigit(s[k])
  }

  /** The first position at or after `i` that does not hold whitespace (or `|s|`). */
  function SkipSpaces(s: string, i: nat): (r: nat)
    requires i <= |s|
    ensures i <= r <= |s|
    decreases |s| - i
  {
    if i < |s| && IsSpace(s[i]) then SkipSpaces(s, i + 1) else i
  }

  /** The end, at `j` or before it but not before `lo`, of `s[lo..j]` with its trailing whitespace dropped. */
  function SkipSpacesBack(s: string, lo: nat, j: nat): (r: nat)
    requires lo <= j <= |s|
    ensures lo <= r <= j
    decreases j
  {
    if lo < j && IsSpace(s[j - 1]) then SkipSpacesBack(s, lo, j - 1) else j
  }

  /** `s.strip()`: whitespace is trimmed from both ends. */
  function Strip(s: string): (r: string)
    ensures |r| <= |s|
  {
    var i := SkipSpaces(s, 0);
    s[i..SkipSpacesBack(s, i, |s|)]
  }

  lemma {:induction false} SkipSpacesSpec(s: string, i: nat)
    requires i <= |s|
    ensures forall k :: i <= k < SkipSpaces(s, i) ==> IsSpace(s[k])
    ensures SkipSpaces(s, i) < |s| ==> !IsSpace(s[SkipSpaces(s, i)])
    decreases |s| - i
  {
    if i < |s| && IsSpace(s[i]) {
      SkipSpacesSpec(s, i + 1);
    }
  }

  lemma {:induction false} SkipSpacesBackSpec(s: string, lo: nat, j: nat)
    requires lo <= j <= |s|
    ensures forall k :: SkipSpacesBack(s, lo, j) <= k < j ==> IsSpace(s[k])
    ensures lo < SkipSpacesBack(s, lo, j) ==> !IsSpace(s[SkipSpacesBack(s, lo, j) - 1])
    decreases j
  {
    if lo < j && IsSpace(s[j - 1]) {
      SkipSpacesBackSpec(s, lo, j - 1);
    }
  }

  /**
   * `Strip(s)` is the slice of `s` left once whitespace is dropped at both ends: everything cut
   * off is whitespace, and the result neither starts nor ends with whitespace.
   */
  lemma StripSpec(s: string)
    ensures exists i, j :: 0 <= i <= j <= |s| && Strip(s) == s[i..j]
                           && (forall k :: 0 <= k < i ==> IsSpace(s[k]))
                           && (forall k :: j <= k < |s| ==> IsSpace(s[k]))
    ensures Strip(s) != [] ==> !IsSpace(Strip(s)[0]) && !IsSpace(Strip(s)[|Strip(s)| - 1])
  {
    var i := SkipSpaces(s, 0);
    var j := SkipSpacesBack(s, i, |s|);
    SkipSpacesSpec(s, 0);
    SkipSpacesBackSpec(s, i, |s|);
    assert Strip(s) == s[i..j];
  }

  /** A text that neither starts nor ends with whitespace is its own strip. */
  lemma StripUnchanged(s: string)
    requires s == [] || (!IsSpace(s[0]) && !IsSpace(s[|s| - 1]))
    ensures Strip(s) == s
  {
    assert SkipSpaces(s, 0) == 0;
    assert SkipSpacesBack(s, 0, |s|) == |s|;
  }

  /** Stripping twice is stripping once. */
  lemma StripIdempotent(s: string)
    ensures Strip(Strip(s)) == Strip(s)
  {
    StripSpec(s);
    StripUnchanged(Strip(s));
  }

  /** Whatever holds of every character of `s` holds of every character of `Strip(s)`. */
  lemma StripKeepsAll(s: string, P: char -> bool)
    requires forall k :: 0 <= k < |s| ==> P(s[k])
    ensures forall k :: 0 <= k < |Strip(s)| ==> P(Strip(s)[k])
  {
    var i := SkipSpaces(s, 0);
    var j := SkipSpacesBack(s, i, |s|);
    forall k | 0 <= k < |Strip(s)| ensures P(Strip(s)[k]) {
      assert Strip(s)[k] == s[i + k];
    }
  }

  /** A slice of `s` that only drops whitespace keeps every non-space character of `s`. */
  lemma {:induction false} StripKeepsInner(s: string, c: char)
    requires c in s && !IsSpace(c)
    ensures c in Strip(s)
  {
    StripSpec(s);
    var i, j :| 0 <= i <= j <= |s| && Strip(s) == s[i..j]
                && (forall k :: 0 <= k < i ==> IsSpace(s[k]))
                && (forall k :: j <= k < |s| ==> IsSpace(s[k]));
    var k :| 0 <= k < |s| && s[k] == c;
    assert i <= k < j;
    assert Strip(s)[k - i] == c;
  }

  /** `c.lower()` for ASCII; the decisions modelled here only compare with ASCII text. */
  function LowerChar(c: char): char
  {
    if 'A' <= c <= 'Z' then (c as int - 'A' as int + 'a' as int) as char else c
  }

  function Lower(s: string): (r: string)
    ensures |r| == |s|
    ensures forall k :: 0 <= k < |s| ==> r[k] == LowerChar(s[k])
  {
    seq(|s|, k requires 0 <= k < |s| => LowerChar(s[k]))
  }

  predicate StartsWith(s: string, prefix: string)
  {
    |prefix| <= |s| && s[..|prefix|] == prefix
  }

  predicate EndsWith(s: string, suffix: string)
  {
    |suffix| <= |s| && s[|s| - |suffix|..] == suffix
  }

  predicate OccursAt(s: string, t: string, k: int)
  {
    0 <= k && k + |t| <= |s| && s[k..k + |t|] == t
  }

  /** Python's `t in s`. */
  predicate Contains(s: string, t: string)
  {
    exists k | 0 <= k <= |s| :: OccursAt(s, t, k)
  }

  /** Leftmost occurrence of `t` in `s` at or after `from`. */
  function FindFrom(s: string, t: string, from: nat): (r: Option<nat>)
    ensures r.Some? ==> from <= r.value && OccursAt(s, t, r.value)
                        && forall k :: from <= k < r.value ==> !OccursAt(s, t, k)
    ensures r.None? ==> forall k :: from <= k ==> !OccursAt(s, t, k)
    decreases |s| - from
  {
    if from + |t| > |s| then None
    else if s[from..from + |t|] == t then Some(from)
    else FindFrom(s, t, from + 1)
  }

  /** `s.find(t)`, as an Option. */
  function Find(s: string, t: string): (r: Option<nat>)
    ensures r.Some? ==> OccursAt(s, t, r.value) && forall k :: 0 <= k < r.value ==> !OccursAt(s, t, k)
    ensures r.None? ==> forall k :: 0 <= k ==> !OccursAt(s, t, k)
  {
    FindFrom(s, t, 0)
  }

  /** `s.split(sep)` for a non-empty separator: cut at every leftmost non-overlapping occurrence. */
  function Split(s: string, sep: string): (parts: seq<string>)
    requires sep != []
    ensures |parts| >= 1
    decreases |s|
  {
    match Find(s, sep)
    case None => [s]
    case Some(i) => [s[..i]] + Split(s[i + |sep|..], sep)
  }

  /** No piece of a split contains the separator. */
  lemma {:induction false} SplitPiecesClean(s: string, sep: string)
    requires sep != []
    ensures forall k :: 0 <= k < |Split(s, sep)| ==> !Contains(Split(s, sep)[k], sep)
    decreases |s|
  {
    var f := Find(s, sep);
    if f.Some? {
      var i := f.value;
      var rest := s[i + |sep|..];
      SplitPiecesClean(rest, sep);
      assert !Contains(s[..i], sep) by {
        forall k | 0 <= k <= |s[..i]| && OccursAt(s[..i], sep, k) ensures false {
          assert s[..i][k..k + |sep|] == s[k..k + |sep|];
          assert OccursAt(s, sep, k);
        }
      }
      assert Split(s, sep) == [s[..i]] + Split(rest, sep);
    }
  }

  /** `sep.join(parts)`. */
  function Join(parts: seq<string>, sep: string): string
  {
    if parts == [] then []
    else if |parts| == 1 then parts[0]
    else parts[0] + sep + Join(parts[1..], sep)
  }

  /** Joining a list whose head is `a`: the head, the separator, then the rest joined. */
  lemma JoinCons(a: string, tail: seq<string>, sep: string)
    requires tail != []
    ensures Join([a] + tail, sep) == a + sep + Join(tail, sep)
  {
    assert ([a] + tail)[1..] == tail;
  }

  /** Splitting and joining again gives back the original text. */
  lemma {:induction false} JoinSplit(s: string, sep: string)
    requires sep != []
    ensures Join(Split(s, sep), sep) == s
    decreases |s|
  {
    var f := Find(s, sep);
    if f.Some? {
      var i := f.value;
      var head, rest := s[..i], s[i + |sep|..];
      var tail := Split(rest, sep);
      assert Split(s, sep) == [head] + tail;
      JoinSplit(rest, sep);
      JoinCons(head, tail, sep);
      CutAround(s, i, sep);
    }
  }

  /**
   * Splitting a joined text gives the parts back, provided no part but the last holds the
   * separator's first character and the last does not contain the separator.
   */
  lemma {:induction false} SplitJoin(parts: seq<string>, sep: string)
    requires sep != [] && parts != []
    requires forall k :: 0 <= k < |parts| - 1 ==> sep[0] !in parts[k]
    requires !Contains(parts[|parts| - 1], sep)
    ensures Split(Join(parts, sep), sep) == parts
    decreases |parts|
  {
    var head := parts[0];
    if |parts| == 1 {
      assert Join(parts, sep) == head;
      assert forall k | 0 <= k <= |head| :: !OccursAt(head, sep, k);
      assert Find(head, sep).None?;
    } else {
      var rest := parts[1..];
      var tail := Join(rest, sep);
      var s := Join(parts, sep);
      assert s == head + sep + tail;
      FindAtBoundary(head, sep, tail);
      assert s[|head| + |sep|..] == tail;
      assert forall k :: 0 <= k < |rest| - 1 ==> rest[k] == parts[k + 1];
      SplitJoin(rest, sep);
      assert Split(s, sep) == [s[..|head|]] + Split(tail, sep);
      assert s[..|head|] == head;
      assert parts == [head] + rest;
    }
  }

  /** When `head` lacks the separator's first character, the first occurrence is right after `head`. */
  lemma FindAtBoundary(head: string, sep: string, tail: string)
    requires sep != [] && sep[0] !in head
    ensures Find(head + sep + tail, sep) == Some(|head|)
  {
    var s := head + sep + tail;
    assert s[|head|..|head| + |sep|] == sep;
    assert OccursAt(s, sep, |head|);
    forall k | 0 <= k < |head| ensures !OccursAt(s, sep, k) {
      assert s[k] == head[k] != sep[0];
      if k + |sep| <= |s| {
        assert s[k..k + |sep|][0] == s[k];
      }
    }
    var f := Find(s, sep);
    assert f.Some? && f.value <= |head|;
  }

  /** Gluing a prefix to a joined text is gluing it to the first part. */
  lemma JoinPrefix(a: string, parts: seq<string>, sep: string)
    requires parts != []
    ensures a + Join(parts, sep) == Join([a + parts[0]] + parts[1..], sep)
  {
    var q := [a + parts[0]] + parts[1..];
    assert q[0] == a + parts[0];
    assert q[1..] == parts[1..];
  }

  /** Gluing a suffix to a joined text is gluing it to the last part. */
  lemma {:induction false} JoinSuffix(parts: seq<string>, b: string, sep: string)
    requires parts != []
    ensures Join(parts, sep) + b == Join(parts[..|parts| - 1] + [parts[|parts| - 1] + b], sep)
    decreases |parts|
  {
    var q := parts[..|parts| - 1] + [parts[|parts| - 1] + b];
    if |parts| == 1 {
      assert q == [parts[0] + b];
    } else {
      var rest := parts[1..];
      JoinSuffix(rest, b, sep);
      assert q[0] == parts[0];
      assert q[1..] == rest[..|rest| - 1] + [rest[|rest| - 1] + b];
    }
  }

  /** Cutting `s` around an occurrence of `t` at `i` and gluing the pieces back gives `s`. */
  lemma CutAround(s: string, i: nat, t: string)
    requires OccursAt(s, t, i)
    ensures s[..i] + t + s[i + |t|..] == s
  {
  }

  /** Keeps the characters for which `drop` is false (`re.sub` of a character class by ""). */
  function RemoveWhere(s: string, drop: char -> bool): (r: string)
    ensures forall k :: 0 <= k < |r| ==> !drop(r[k])
    ensures |r| <= |s|
  {
    if s == [] then []
    else if drop(s[0]) then RemoveWhere(s[1..], drop)
    else [s[0]] + RemoveWhere(s[1..], drop)
  }

  lemma {:induction false} RemoveWhereAppend(a: string, b: string, drop: char -> bool)
    ensures RemoveWhere(a + b, drop) == RemoveWhere(a, drop) + RemoveWhere(b, drop)
  {
    if a == [] {
      assert a + b == b;
    } else {
      assert (a + b)[0] == a[0];
      assert (a + b)[1..] == a[1..] + b;
      RemoveWhereAppend(a[1..], b, drop);
    }
  }

  /** Removing only dropped characters yields nothing. */
  lemma {:induction false} RemoveWhereAllDropped(s: string, drop: char -> bool)
    requires forall k :: 0 <= k < |s| ==> drop(s[k])
    ensures RemoveWhere(s, drop) == []
  {
    if s != [] {
      RemoveWhereAllDropped(s[1..], drop);
    }
  }

  /** Removing nothing leaves the text as it was. */
  lemma {:induction false} RemoveWhereNoneDropped(s: string, drop: char -> bool)
    requires forall k :: 0 <= k < |s| ==> !drop(s[k])
    ensures RemoveWhere(s, drop) == s
  {
    if s != [] {
      RemoveWhereNoneDropped(s[1..], drop);
    }
  }

  /** Cutting dropped characters off the front before removing changes nothing. */
  lemma RemoveWhereDropFront(s: string, i: nat, drop: char -> bool)
    requires i <= |s|
    requires forall k :: 0 <= k < i ==> drop(s[k])
    ensures RemoveWhere(s[i..], drop) == RemoveWhere(s, drop)
  {
    assert s == s[..i] + s[i..];
    RemoveWhereAllDropped(s[..i], drop);
    RemoveWhereAppend(s[..i], s[i..], drop);
    assert [] + RemoveWhere(s[i..], drop) == RemoveWhere(s[i..], drop);
  }

  /** Cutting dropped characters off the back before removing changes nothing. */
  lemma RemoveWhereDropBack(s: string, j: nat, drop: char -> bool)
    requires j <= |s|
    requires forall k :: j <= k < |s| ==> drop(s[k])
    ensures RemoveWhere(s[..j], drop) == RemoveWhere(s, drop)
  {
    assert s == s[..j] + s[j..];
    RemoveWhereAllDropped(s[j..], drop);
    RemoveWhereAppend(s[..j], s[j..], drop);
    assert RemoveWhere(s[..j], drop) + [] == RemoveWhere(s[..j], drop);
  }

  /** Cutting dropped characters off both ends before removing changes nothing. */
  lemma RemoveWhereTrim(s: string, i: nat, j: nat, drop: char -> bool)
    requires i <= j <= |s|
    requires forall k :: 0 <= k < i ==> drop(s[k])
    requires forall k :: j <= k < |s| ==> drop(s[k])
    ensures RemoveWhere(s[i..j], drop) == RemoveWhere(s, drop)
  {
    RemoveWhereDropBack(s, j, drop);
    assert s[..j][i..] == s[i..j];
    RemoveWhereDropFront(s[..j], i, drop);
  }

  /** `s.replace(a, b)` for single characters. */
  function ReplaceChar(s: string, a: char, b: char): (r: string)
    ensures |r| == |s|
    ensures forall k :: 0 <= k < |s| ==> r[k] == (if s[k] == a then b else s[k])
  {
    seq(|s|, k requires 0 <= k < |s| => if s[k] == a then b else s[k])
  }

  /** Decimal text of a natural number, as `str(n)` gives it. */
  function NatToString(n: nat): (r: string)
    ensures r != [] && AllDigits(r)
    ensures |r| == 1 || r[0] != '0'
  {
    if n < 10 then ["0123456789"[n]]
    else NatToString(n / 10) + ["0123456789"[n % 10]]
  }

  /** `s[-1]` of a non-empty list. */
  function Last<T>(s: seq<T>): T
    requires s != []
  {
    s[|s| - 1]
  }

  /** A text with no occurrence of some character of `t` does not contain `t`. */
  lemma MissingCharNotContained(s: string, t: string, i: nat)
    requires i < |t| && t[i] !in s
    ensures !Contains(s, t)
  {
    forall k | 0 <= k <= |s| ensures !OccursAt(s, t, k) {
      if k + |t| <= |s| {
        assert s[k..k + |t|][i] == s[k + i] != t[i];
      }
    }
  }

  /** A text that does not contain the one-character string `[c]` has no `c` in it. */
  lemma NotContainedChar(s: string, c: char)
    requires !Contains(s, [c])
    ensures c !in s
  {
    forall k | 0 <= k < |s| ensures s[k] != c {
      assert !OccursAt(s, [c], k);
      assert s[k..k + 1] == [s[k]];
    }
  }

  /** A joined text ends with its last part. */
  lemma {:induction false} JoinEndsWithLast(parts: seq<string>, sep: string)
    requires parts != []
    ensures EndsWith(Join(parts, sep), Last(parts))
  {
    if |parts| == 1 {
      assert Join(parts, sep)[|Join(parts, sep)| - |parts[0]|..] == parts[0];
    } else {
      var tail := Join(parts[1..], sep);
      JoinEndsWithLast(parts[1..], sep);
      assert Last(parts[1..]) == Last(parts);
      var whole := parts[0] + sep + tail;
      assert whole[|whole| - |Last(parts)|..] == tail[|tail| - |Last(parts)|..];
    }
  }

  /** The text after the last '/' of a path (`path.split('/')[-1]`, and `os.path.basename` on POSIX). */
  function Basename(path: string): string
  {
    Last(Split(path, "/"))
  }

  /** The base name holds no '/' and is what the path ends with. */
  lemma BasenameSpec(path: string)
    ensures '/' !in Basename(path)
    ensures EndsWith(path, Basename(path))
  {
    var parts := Split(path, "/");
    SplitPiecesClean(path, "/");
    NotContainedChar(Last(parts), '/');
    JoinSplit(path, "/");
    JoinEndsWithLast(parts, "/");
  }
}
