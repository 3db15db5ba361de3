/**
 * The Lightstone owner-report extractor: every text block of the document is stripped and
 * scanned with the pattern `(\d+)\s+(\d+)\s+([A-Z\s]+?)\s+(\d{13})`; each match becomes a record
 * (unit, size, name, identifier).  The PDF library is abstracted: a document is the sequence of
 * its pages, a page the sequence of its text blocks.
 */
module PdfParser {
  import opened Wrappers
  import opened Text

  /** The character classes the pattern uses: `\d`, `\s` and `[A-Z\s]`. */
  datatype CharClass = Digit | Space | NameChar

  predicate InClass(c: CharClass, ch: char)
  {
    match c
    case Digit => IsDigit(ch)
    case Space => IsSpace(ch)
    case NameChar => ('A' <= ch <= 'Z') || IsSpace(ch)
  }

  /** How often a pattern item repeats: `+` (greedy), `+?` (lazy) or `{n}`. */
  datatype Repeat = Greedy | Lazy | Exactly(n: nat)

  /** One item of the pattern: a character class and its repetition. */
  datatype Item = Item(cls: CharClass, rep: Repeat)

  /** Length of the identifier group `\d{13}`. */
  const IdLength: nat := 13

  /** `(\d+)\s+(\d+)\s+([A-Z\s]+?)\s+(\d{13})`, item by item (the groups do not change what matches). */
  const Pattern: seq<Item> := [Item(Digit, Greedy), Item(Space, Greedy), Item(Digit, Greedy),
                               Item(Space, Greedy), Item(NameChar, Lazy), Item(Space, Greedy),
                               Item(Digit, Exactly(IdLength))]

  /** `s[lo..hi]` lies inside `s` and every character of it is in class `c`. */
  predicate ClassIn(s: string, c: CharClass, lo: nat, hi: nat)
  {
    lo <= hi <= |s| && forall k :: lo <= k < hi ==> InClass(c, s[k])
  }

  /** End of the longest run of class `c` that starts at `i`. */
  function RunEnd(s: string, c: CharClass, i: nat): (e: nat)
    requires i <= |s|
    ensures i <= e <= |s| && ClassIn(s, c, i, e)
    ensures e == |s| || !InClass(c, s[e])
    decreases |s| - i
  {
    if i < |s| && InClass(c, s[i]) then RunEnd(s, c, i + 1) else i
  }

  /** No run of class `c` from `i` reaches past `RunEnd(s, c, i)`. */
  lemma RunMaximal(s: string, c: CharClass, i: nat, j: nat)
    requires i <= |s| && ClassIn(s, c, i, j)
    ensures j <= RunEnd(s, c, i)
  {
  }

  // The pattern read declaratively.

  /** Item `it` matches exactly `s[p..e]`. */
  predicate ItemFits(s: string, it: Item, p: nat, e: nat)
  {
    ClassIn(s, it.cls, p, e) &&
    match it.rep
    case Exactly(n) => e == p + n
    case _ => p < e
  }

  /** The items match one after the other from `p`, item `k` ending at `ends[k]`. */
  predicate Fits(s: string, items: seq<Item>, p: nat, ends: seq<nat>)
    decreases |items|
  {
    |ends| == |items| &&
    (items != [] ==> ItemFits(s, items[0], p, ends[0]) && Fits(s, items[1..], ends[0], ends[1..]))
  }

  // The backtracking search, in the order Python's engine tries the alternatives: `+` takes the
  // longest run first and gives back one character at a time; `+?` takes one character first and
  // extends one at a time; each candidate is tried with the whole rest of the pattern before the
  // next.  The three functions form one recursion over the pattern.

  /** The ends of the items when the engine matches `items` from `p`, if it can. */
  function MatchItems(s: string, items: seq<Item>, p: nat): (r: Option<seq<nat>>)
    requires p <= |s|
    ensures r.Some? ==> Fits(s, items, p, r.value)
    decreases |items|, 1, 0
  {
    if items == [] then Some([])
    else
      var it := items[0];
      match it.rep
      case Greedy => TryGreedy(s, items, p, RunEnd(s, it.cls, p))
      case Lazy =>
        if p < |s| && InClass(it.cls, s[p]) then TryLazy(s, items, p, p + 1) else None
      case Exactly(n) =>
        if p + n <= |s| && ClassIn(s, it.cls, p, p + n) then
          match MatchItems(s, items[1..], p + n)
          case Some(rest) => Some([p + n] + rest)
          case None => None
        else None
  }

  /** A greedy first item: the run may end at `e`, `e - 1`, ..., `p + 1`, tried in that order. */
  function TryGreedy(s: string, items: seq<Item>, p: nat, e: nat): (r: Option<seq<nat>>)
    requires items != [] && items[0].rep == Greedy
    requires p <= e && ClassIn(s, items[0].cls, p, e)
    ensures r.Some? ==> Fits(s, items, p, r.value)
    decreases |items|, 0, e
  {
    if e <= p then None
    else match MatchItems(s, items[1..], e)
      case Some(rest) => Some([e] + rest)
      case None => TryGreedy(s, items, p, e - 1)
  }

  /** A lazy first item: the run may end at `e`, `e + 1`, ..., as far as the class allows. */
  function TryLazy(s: string, items: seq<Item>, p: nat, e: nat): (r: Option<seq<nat>>)
    requires items != [] && items[0].rep == Lazy
    requires p < e && ClassIn(s, items[0].cls, p, e)
    ensures r.Some? ==> Fits(s, items, p, r.value)
    decreases |items|, 0, |s| - e
  {
    match MatchItems(s, items[1..], e)
    case Some(rest) => Some([e] + rest)
    case None =>
      if e < |s| && InClass(items[0].cls, s[e]) then TryLazy(s, items, p, e + 1) else None
  }

  // Completeness of the search: backtracking never gives up where the items fit.

  lemma {:induction false} MatchItemsComplete(s: string, items: seq<Item>, p: nat, ends: seq<nat>)
    requires p <= |s| && Fits(s, items, p, ends)
    ensures MatchItems(s, items, p).Some?
    decreases |items|, 1, 0
  {
    if items != [] {
      var it := items[0];
      match it.rep
      case Greedy =>
        RunMaximal(s, it.cls, p, ends[0]);
        TryGreedyComplete(s, items, p, RunEnd(s, it.cls, p), ends);
      case Lazy =>
        TryLazyComplete(s, items, p, p + 1, ends);
      case Exactly(n) =>
        MatchItemsComplete(s, items[1..], p + n, ends[1..]);
    }
  }

  lemma {:induction false} TryGreedyComplete(s: string, items: seq<Item>, p: nat, e: nat, ends: seq<nat>)
    requires items != [] && items[0].rep == Greedy
    requires p <= e && ClassIn(s, items[0].cls, p, e)
    requires Fits(s, items, p, ends) && ends[0] <= e
    ensures TryGreedy(s, items, p, e).Some?
    decreases |items|, 0, e
  {
    if ends[0] == e {
      MatchItemsComplete(s, items[1..], e, ends[1..]);
    } else if MatchItems(s, items[1..], e).None? {
      TryGreedyComplete(s, items, p, e - 1, ends);
    }
  }

  lemma {:induction false} TryLazyComplete(s: string, items: seq<Item>, p: nat, e: nat, ends: seq<nat>)
    requires items != [] && items[0].rep == Lazy
    requires p < e && ClassIn(s, items[0].cls, p, e)
    requires Fits(s, items, p, ends) && e <= ends[0]
    ensures TryLazy(s, items, p, e).Some?
    decreases |items|, 0, ends[0] - e
  {
    if ends[0] == e {
      MatchItemsComplete(s, items[1..], e, ends[1..]);
    } else if MatchItems(s, items[1..], e).None? {
      assert InClass(items[0].cls, s[e]);
      TryLazyComplete(s, items, p, e + 1, ends);
    }
  }

  /**
   * Boundaries of one match: unit = s[start..unitEnd], size = s[sizeStart..sizeEnd],
   * name = s[nameStart..nameEnd], identifier = s[idStart..idStart + 13]; the gaps between
   * the groups are the three `\s+`.
   */
  datatype Groups = Groups(start: nat, unitEnd: nat, sizeStart: nat, sizeEnd: nat,
                           nameStart: nat, nameEnd: nat, idStart: nat)
  {
    function End(): nat { idStart + IdLength }
  }

  /** The groups follow each other inside a text of length `n`. */
  predicate Spans(g: Groups, n: nat)
  {
    g.start <= g.unitEnd <= g.sizeStart <= g.sizeEnd <= g.nameStart <= g.nameEnd <= g.idStart && g.End() <= n
  }

  /** The whole pattern matches `s[g.start..g.End()]` with the groups `g` describes. */
  predicate IsMatch(s: string, g: Groups)
  {
    && g.start < g.unitEnd && ClassIn(s, Digit, g.start, g.unitEnd)
    && g.unitEnd < g.sizeStart && ClassIn(s, Space, g.unitEnd, g.sizeStart)
    && g.sizeStart < g.sizeEnd && ClassIn(s, Digit, g.sizeStart, g.sizeEnd)
    && g.sizeEnd < g.nameStart && ClassIn(s, Space, g.sizeEnd, g.nameStart)
    && g.nameStart < g.nameEnd && ClassIn(s, NameChar, g.nameStart, g.nameEnd)
    && g.nameEnd < g.idStart && ClassIn(s, Space, g.nameEnd, g.idStart)
    && ClassIn(s, Digit, g.idStart, g.End())
  }

  /** The pattern fits somewhere in `s`. */
  ghost predicate HasMatch(s: string)
  {
    exists g :: IsMatch(s, g)
  }

  /** The item ends of a match of `Pattern`, as group boundaries. */
  function GroupsOf(p: nat, ends: seq<nat>): Groups
    requires |ends| == |Pattern|
  {
    Groups(p, ends[0], ends[1], ends[2], ends[3], ends[4], ends[5])
  }

  /** Where item `k` starts when the items before it end at `ends`. */
  function Before(p: nat, ends: seq<nat>, k: nat): nat
    requires k <= |ends|
  {
    if k == 0 then p else ends[k - 1]
  }

  /** `Fits` item by item: each item matches between the end of the previous one and its own end. */
  lemma {:induction false} FitsEach(s: string, items: seq<Item>, p: nat, ends: seq<nat>)
    requires |ends| == |items|
    ensures Fits(s, items, p, ends) <==>
            forall k :: 0 <= k < |items| ==> ItemFits(s, items[k], Before(p, ends, k), ends[k])
    decreases |items|
  {
    if items != [] {
      FitsEach(s, items[1..], ends[0], ends[1..]);
      forall k | 1 <= k < |items|
        ensures items[k] == items[1..][k - 1] && ends[k] == ends[1..][k - 1]
        ensures Before(p, ends, k) == Before(ends[0], ends[1..], k - 1)
      {
      }
    }
  }

  /** `IsMatch` is `Pattern` matched item by item. */
  lemma PatternFits(s: string, g: Groups)
    ensures IsMatch(s, g) <==> Fits(s, Pattern, g.start, [g.unitEnd, g.sizeStart, g.sizeEnd, g.nameStart, g.nameEnd, g.idStart, g.End()])
  {
    var ends := [g.unitEnd, g.sizeStart, g.sizeEnd, g.nameStart, g.nameEnd, g.idStart, g.End()];
    FitsEach(s, Pattern, g.start, ends);
    if Fits(s, Pattern, g.start, ends) {
      assert ItemFits(s, Pattern[0], Before(g.start, ends, 0), ends[0]);
      assert ItemFits(s, Pattern[1], Before(g.start, ends, 1), ends[1]);
      assert ItemFits(s, Pattern[2], Before(g.start, ends, 2), ends[2]);
      assert ItemFits(s, Pattern[3], Before(g.start, ends, 3), ends[3]);
      assert ItemFits(s, Pattern[4], Before(g.start, ends, 4), ends[4]);
      assert ItemFits(s, Pattern[5], Before(g.start, ends, 5), ends[5]);
      assert ItemFits(s, Pattern[6], Before(g.start, ends, 6), ends[6]);
    }
  }

  /** The match the engine finds when it tries position `p`; whatever it returns fits the pattern. */
  function MatchAt(s: string, p: nat): (r: Option<Groups>)
    requires p <= |s|
    ensures r.Some? ==> r.value.start == p && IsMatch(s, r.value)
  {
    match MatchItems(s, Pattern, p)
    case None => None
    case Some(ends) =>
      var g := GroupsOf(p, ends);
      assert ends == [g.unitEnd, g.sizeStart, g.sizeEnd, g.nameStart, g.nameEnd, g.idStart, ends[6]];
      assert ends[6] == g.End() by {
        FitsEach(s, Pattern, p, ends);
        assert ItemFits(s, Pattern[6], Before(p, ends, 6), ends[6]);
      }
      PatternFits(s, g);
      Some(g)
  }

  /** Wherever the pattern fits, the engine finds a match at that position. */
  lemma {:induction false} MatchAtComplete(s: string, g: Groups)
    requires IsMatch(s, g)
    ensures MatchAt(s, g.start).Some?
  {
    PatternFits(s, g);
    MatchItemsComplete(s, Pattern, g.start, [g.unitEnd, g.sizeStart, g.sizeEnd, g.nameStart, g.nameEnd, g.idStart, g.End()]);
  }

  // ---------------------------------------------------------------- findall

  /** `[f(q), f(q + 1), ..., f(n - 1)]`. */
  function Tabulate<T>(f: nat -> T, q: nat, n: nat): (r: seq<T>)
    ensures |r| == if q <= n then n - q else 0
    decreases n - q
  {
    if q >= n then [] else [f(q)] + Tabulate(f, q + 1, n)
  }

  lemma {:induction false} TabulateAt<T>(f: nat -> T, q: nat, n: nat, k: nat)
    requires q + k < n
    ensures Tabulate(f, q, n)[k] == f(q + k)
    decreases k
  {
    if k > 0 {
      TabulateAt(f, q + 1, n, k - 1);
    }
  }

  /** The engine's answer at position `q`, and none past the end of the text. */
  function AnswerAt(s: string, q: nat): Option<Groups>
  {
    if q <= |s| then MatchAt(s, q) else None
  }

  /** The engine's answer at every position of `s`, from 0 up to and including `|s|`. */
  function Engine(s: string): (e: seq<Option<Groups>>)
    ensures |e| == |s| + 1
  {
    Tabulate(q => AnswerAt(s, q), 0, |s| + 1)
  }

  /** The answer at position `q` is the engine's match there. */
  lemma EngineAt(s: string, q: nat)
    requires q <= |s|
    ensures Engine(s)[q] == MatchAt(s, q)
  {
    TabulateAt(q => AnswerAt(s, q), 0, |s| + 1, q);
  }

  /** Each answer found at a position starts there and ends after it, within the answers. */
  predicate Answers(e: seq<Option<Groups>>)
  {
    forall q :: 0 <= q < |e| && e[q].Some? ==> e[q].value.start == q && q < e[q].value.End() <= |e|
  }

  lemma EngineAnswers(s: string)
    ensures Answers(Engine(s))
  {
    var e := Engine(s);
    forall q | 0 <= q < |e| && e[q].Some? ensures e[q].value.start == q && q < e[q].value.End() <= |e| {
      EngineAt(s, q);
    }
  }

  /** What the scan returns over the engine's answers are matches. */
  lemma EngineScanMatches(s: string, p: nat)
    requires Answers(Engine(s))
    ensures forall k :: 0 <= k < |Scan(Engine(s), p)| ==>
              p <= Scan(Engine(s), p)[k].start && IsMatch(s, Scan(Engine(s), p)[k])
  {
    var ms := Scan(Engine(s), p);
    forall k | 0 <= k < |ms| ensures p <= ms[k].start && IsMatch(s, ms[k]) {
      EngineAt(s, ms[k].start);
    }
  }

  /**
   * The scan of `findall` over the engine's answers `e`: positions are tried left to right
   * from `p`, and after a match the scan resumes at its end.
   */
  function Scan(e: seq<Option<Groups>>, p: nat): (ms: seq<Groups>)
    requires Answers(e)
    ensures forall k :: 0 <= k < |ms| ==> p <= ms[k].start < |e| && e[ms[k].start] == Some(ms[k])
    decreases |e| - p
  {
    if p >= |e| then []
    else match e[p]
      case Some(g) => [g] + Scan(e, g.End())
      case None => Scan(e, p + 1)
  }

  /** No answer from `lo` up to (not including) `hi`. */
  predicate Silent(e: seq<Option<Groups>>, lo: nat, hi: nat)
  {
    forall q :: lo <= q < hi ==> q < |e| && e[q].None?
  }

  /** Each match ends before the next begins. */
  predicate Ordered(ms: seq<Groups>)
  {
    forall k :: 0 <= k < |ms| - 1 ==> ms[k].End() <= ms[k + 1].start
  }

  lemma {:induction false} ScanOrdered(e: seq<Option<Groups>>, p: nat)
    requires Answers(e)
    ensures Ordered(Scan(e, p))
    decreases |e| - p
  {
    if p < |e| {
      match e[p]
      case Some(g) =>
        ScanOrdered(e, g.End());
        var rest := Scan(e, g.End());
        var ms := [g] + rest;
        assert Scan(e, p) == ms;
        forall k | 0 <= k < |ms| - 1 ensures ms[k].End() <= ms[k + 1].start {
          assert ms[k + 1] == rest[k];
          if k > 0 {
            assert ms[k] == rest[k - 1];
          }
        }
      case None =>
        assert Scan(e, p) == Scan(e, p + 1);
        ScanOrdered(e, p + 1);
    }
  }

  lemma {:induction false} ScanLeftmost(e: seq<Option<Groups>>, p: nat)
    requires Answers(e)
    ensures Scan(e, p) != [] ==> Silent(e, p, Scan(e, p)[0].start)
    decreases |e| - p
  {
    if p < |e| && e[p].None? {
      ScanLeftmost(e, p + 1);
    }
  }

  lemma {:induction false} ScanEmpty(e: seq<Option<Groups>>, p: nat)
    requires Answers(e)
    ensures Scan(e, p) == [] <==> Silent(e, p, |e|)
    decreases |e| - p
  {
    if p < |e| && e[p].None? {
      ScanEmpty(e, p + 1);
    }
  }

  lemma ScanTail(e: seq<Option<Groups>>, p: nat)
    requires Answers(e)
    ensures var ms := Scan(e, p); ms != [] ==> ms[1..] == Scan(e, ms[0].End())
  {
    var ms := Scan(e, p);
    if ms != [] {
      var g := ms[0];
      ScanLeftmost(e, p);
      ScanSkip(e, p, g.start);
      assert Scan(e, g.start) == [g] + Scan(e, g.End());
    }
  }

  /** Positions without an answer are skipped: the scan from `p` is the scan from `q`. */
  lemma {:induction false} ScanSkip(e: seq<Option<Groups>>, p: nat, q: nat)
    requires Answers(e) && p <= q && Silent(e, p, q)
    ensures Scan(e, p) == Scan(e, q)
    decreases q - p
  {
    if p < q {
      assert e[p].None?;
      ScanSkip(e, p + 1, q);
    }
  }

  /** Between each match of `ms` and the next there is no answer. */
  predicate GapFree(e: seq<Option<Groups>>, ms: seq<Groups>)
    decreases |ms|
  {
    |ms| <= 1 || (Silent(e, ms[0].End(), ms[1].start) && GapFree(e, ms[1..]))
  }

  /** `GapFree`, gap by gap. */
  lemma {:induction false} GapFreeEach(e: seq<Option<Groups>>, ms: seq<Groups>)
    requires GapFree(e, ms)
    ensures forall k :: 0 <= k < |ms| - 1 ==> Silent(e, ms[k].End(), ms[k + 1].start)
    decreases |ms|
  {
    if |ms| > 1 {
      GapFreeEach(e, ms[1..]);
      forall k | 1 <= k < |ms| - 1 ensures ms[k] == ms[1..][k - 1] && ms[k + 1] == ms[1..][k] {
      }
    }
  }

  lemma {:induction false} ScanGapFree(e: seq<Option<Groups>>, p: nat)
    requires Answers(e)
    ensures GapFree(e, Scan(e, p))
    decreases |e| - p
  {
    if p < |e| {
      match e[p]
      case Some(g) =>
        var rest := Scan(e, g.End());
        var ms := [g] + rest;
        assert Scan(e, p) == ms;
        ScanGapFree(e, g.End());
        ScanLeftmost(e, g.End());
        assert ms[1..] == rest;
      case None =>
        ScanGapFree(e, p + 1);
    }
  }

  lemma {:induction false} ScanAfterLast(e: seq<Option<Groups>>, p: nat)
    requires Answers(e)
    ensures var ms := Scan(e, p); ms != [] ==> Silent(e, ms[|ms| - 1].End(), |e|)
    decreases |e| - p
  {
    if p < |e| {
      match e[p]
      case Some(g) =>
        var rest := Scan(e, g.End());
        assert Scan(e, p) == [g] + rest;
        if rest == [] {
          ScanEmpty(e, g.End());
        } else {
          ScanAfterLast(e, g.End());
          assert ([g] + rest)[|rest|] == rest[|rest| - 1];
        }
      case None =>
        ScanAfterLast(e, p + 1);
    }
  }

  /** Ordered matches with no answer in their gaps cover every answer between them. */
  lemma {:induction false} GapFreeCovers(e: seq<Option<Groups>>, ms: seq<Groups>, q: nat)
    requires ms != [] && ms[0].start <= q < ms[|ms| - 1].End()
    requires q < |e| && e[q].Some?
    requires forall k :: 0 <= k < |ms| - 1 ==> Silent(e, ms[k].End(), ms[k + 1].start)
    ensures exists k :: 0 <= k < |ms| && ms[k].start <= q < ms[k].End()
    decreases |ms|
  {
    if q >= ms[0].End() {
      assert |ms| > 1;
      assert q >= ms[1].start;
      var tail := ms[1..];
      assert tail[|tail| - 1] == ms[|ms| - 1];
      forall k | 0 <= k < |tail| - 1 ensures Silent(e, tail[k].End(), tail[k + 1].start) {
        assert tail[k] == ms[k + 1] && tail[k + 1] == ms[k + 2];
      }
      GapFreeCovers(e, tail, q);
      var j :| 0 <= j < |tail| && tail[j].start <= q < tail[j].End();
      assert ms[j + 1] == tail[j];
    }
  }

  /**
   * `pattern.findall(s)`, as the matches it returns, scanning from `p`: the engine tries
   * positions left to right and, after a match, resumes at its end.
   */
  function FindAllFrom(s: string, p: nat): (ms: seq<Groups>)
    ensures forall k :: 0 <= k < |ms| ==> p <= ms[k].start && IsMatch(s, ms[k])
  {
    EngineAnswers(s);
    EngineScanMatches(s, p);
    Scan(Engine(s), p)
  }

  /** The engine finds no match at any position from `lo` up to (not including) `hi`. */
  predicate NoMatchBetween(s: string, lo: nat, hi: nat)
  {
    forall q :: lo <= q < hi ==> q <= |s| && MatchAt(s, q).None?
  }

  lemma SilentAt(e: seq<Option<Groups>>, lo: nat, hi: nat, q: nat)
    requires Silent(e, lo, hi) && lo <= q < hi
    ensures q < |e| && e[q].None?
  {
  }

  /** No answer of the engine is no match. */
  lemma SilentNoMatch(s: string, lo: nat, hi: nat)
    requires Silent(Engine(s), lo, hi)
    ensures NoMatchBetween(s, lo, hi)
  {
    forall q | lo <= q < hi ensures q <= |s| && MatchAt(s, q).None? {
      SilentAt(Engine(s), lo, hi, q);
      EngineAt(s, q);
    }
  }

  /** Every match findall returns is the one the engine finds at its start position. */
  lemma FindAllEngineMatches(s: string, p: nat)
    ensures forall k :: 0 <= k < |FindAllFrom(s, p)| ==>
              var g := FindAllFrom(s, p)[k]; g.start <= |s| && MatchAt(s, g.start) == Some(g)
  {
    EngineAnswers(s);
    var ms := FindAllFrom(s, p);
    forall k | 0 <= k < |ms| ensures ms[k].start <= |s| && MatchAt(s, ms[k].start) == Some(ms[k]) {
      EngineAt(s, ms[k].start);
    }
  }

  /** The matches findall returns do not overlap and come in order. */
  lemma FindAllOrdered(s: string, p: nat)
    ensures forall k :: 0 <= k < |FindAllFrom(s, p)| - 1 ==>
              FindAllFrom(s, p)[k].End() <= FindAllFrom(s, p)[k + 1].start
  {
    EngineAnswers(s);
    assert FindAllFrom(s, p) == Scan(Engine(s), p);
    ScanOrdered(Engine(s), p);
  }

  /** Each match is the leftmost one: the engine finds nothing between `p` and the first match. */
  lemma FindAllLeftmost(s: string, p: nat)
    ensures FindAllFrom(s, p) != [] ==>
              forall q :: p <= q < FindAllFrom(s, p)[0].start ==> q <= |s| && MatchAt(s, q).None?
  {
    EngineAnswers(s);
    var ms := FindAllFrom(s, p);
    assert ms == Scan(Engine(s), p);
    ScanLeftmost(Engine(s), p);
    if ms != [] {
      SilentNoMatch(s, p, ms[0].start);
    }
  }

  /** findall returns nothing exactly when the engine finds no match at any position from `p` on. */
  lemma FindAllEmpty(s: string, p: nat)
    ensures FindAllFrom(s, p) == [] <==> forall q :: p <= q <= |s| ==> MatchAt(s, q).None?
  {
    EngineAnswers(s);
    var e := Engine(s);
    assert FindAllFrom(s, p) == Scan(e, p);
    ScanEmpty(e, p);
    if forall q :: p <= q <= |s| ==> MatchAt(s, q).None? {
      forall q | p <= q < |e| ensures q < |e| && e[q].None? {
        EngineAt(s, q);
      }
    }
    if FindAllFrom(s, p) == [] {
      SilentNoMatch(s, p, |s| + 1);
    }
  }

  /** After its first match, findall goes on from the end of that match. */
  lemma FindAllTail(s: string, p: nat)
    ensures var ms := FindAllFrom(s, p); ms != [] ==> ms[1..] == FindAllFrom(s, ms[0].End())
  {
    EngineAnswers(s);
    var ms := FindAllFrom(s, p);
    assert ms == Scan(Engine(s), p);
    ScanTail(Engine(s), p);
    if ms != [] {
      assert FindAllFrom(s, ms[0].End()) == Scan(Engine(s), ms[0].End());
    }
  }

  /** findall skips no match: the engine finds nothing between one returned match and the next. */
  lemma FindAllGaps(s: string, p: nat)
    ensures var ms := FindAllFrom(s, p);
            forall k :: 0 <= k < |ms| - 1 ==> NoMatchBetween(s, ms[k].End(), ms[k + 1].start)
  {
    EngineAnswers(s);
    var ms := FindAllFrom(s, p);
    assert ms == Scan(Engine(s), p);
    ScanGapFree(Engine(s), p);
    GapFreeEach(Engine(s), ms);
    forall k | 0 <= k < |ms| - 1 ensures NoMatchBetween(s, ms[k].End(), ms[k + 1].start) {
      SilentNoMatch(s, ms[k].End(), ms[k + 1].start);
    }
  }

  /** findall skips no match after its last one either. */
  lemma FindAllAfterLast(s: string, p: nat)
    ensures var ms := FindAllFrom(s, p);
            ms != [] ==> NoMatchBetween(s, ms[|ms| - 1].End(), |s| + 1)
  {
    EngineAnswers(s);
    var ms := FindAllFrom(s, p);
    assert ms == Scan(Engine(s), p);
    ScanAfterLast(Engine(s), p);
    if ms != [] {
      SilentNoMatch(s, ms[|ms| - 1].End(), |s| + 1);
    }
  }

  /**
   * findall misses no match: every position from `p` on where the engine finds a match lies
   * inside one of the matches findall returns.
   */
  lemma FindAllCovers(s: string, p: nat, q: nat)
    requires p <= q <= |s| && MatchAt(s, q).Some?
    ensures var ms := FindAllFrom(s, p);
            exists k :: 0 <= k < |ms| && ms[k].start <= q < ms[k].End()
  {
    EngineAnswers(s);
    var e := Engine(s);
    var ms := Scan(e, p);
    assert FindAllFrom(s, p) == ms;
    EngineAt(s, q);
    ScanEmpty(e, p);
    ScanLeftmost(e, p);
    ScanAfterLast(e, p);
    ScanGapFree(e, p);
    GapFreeEach(e, ms);
    GapFreeCovers(e, ms, q);
  }

  /** One extracted owner record; every field is kept as text. */
  datatype Record = Record(unit: string, size: string, name: string, identifier: string)

  /** The record a match yields: the four groups, the name with surrounding whitespace stripped. */
  function ToRecord(s: string, g: Groups): Record
    requires Spans(g, |s|)
  {
    Record(s[g.start..g.unitEnd], s[g.sizeStart..g.sizeEnd],
           Strip(s[g.nameStart..g.nameEnd]), s[g.idStart..g.End()])
  }

  /** The shape every extracted record has. */
  predicate WellFormed(r: Record)
  {
    && r.unit != [] && AllDigits(r.unit)
    && r.size != [] && AllDigits(r.size)
    && |r.identifier| == IdLength && AllDigits(r.identifier)
    && (forall k :: 0 <= k < |r.name| ==> InClass(NameChar, r.name[k]))
    && (r.name != [] ==> !IsSpace(r.name[0]) && !IsSpace(r.name[|r.name| - 1]))
  }

  /**
   * A match yields a well-formed record: unit and size are non-empty digit strings kept as
   * text, the identifier is exactly 13 digits, the name holds only `A`-`Z` and whitespace and
   * has no whitespace at either end.
   */
  lemma MatchRecordWellFormed(s: string, g: Groups)
    requires IsMatch(s, g)
    ensures WellFormed(ToRecord(s, g))
  {
    var r := ToRecord(s, g);
    ClassInSlice(s, Digit, g.start, g.unitEnd);
    ClassInSlice(s, Digit, g.sizeStart, g.sizeEnd);
    ClassInSlice(s, Digit, g.idStart, g.End());
    var raw := s[g.nameStart..g.nameEnd];
    ClassInSlice(s, NameChar, g.nameStart, g.nameEnd);
    StripKeepsAll(raw, c => InClass(NameChar, c));
    StripSpec(raw);
  }

  /** Every character of a slice in class `c` is in class `c`. */
  lemma ClassInSlice(s: string, c: CharClass, lo: nat, hi: nat)
    requires ClassIn(s, c, lo, hi)
    ensures forall k :: 0 <= k < hi - lo ==> InClass(c, s[lo..hi][k])
  {
    forall k | 0 <= k < hi - lo ensures InClass(c, s[lo..hi][k]) {
      assert s[lo..hi][k] == s[lo + k];
    }
  }

  /** The records of the matches `ms`, in order. */
  function Records(s: string, ms: seq<Groups>): (rs: seq<Record>)
    requires forall k :: 0 <= k < |ms| ==> Spans(ms[k], |s|)
    ensures |rs| == |ms|
    ensures forall k :: 0 <= k < |ms| ==> rs[k] == ToRecord(s, ms[k])
  {
    if ms == [] then [] else Records(s, ms[..|ms| - 1]) + [ToRecord(s, Last(ms))]
  }

  lemma RecordsSnoc(s: string, ms: seq<Groups>, k: nat)
    requires k < |ms| && forall i :: 0 <= i < |ms| ==> Spans(ms[i], |s|)
    ensures Records(s, ms[..k + 1]) == Records(s, ms[..k]) + [ToRecord(s, ms[k])]
  {
    assert ms[..k + 1][..k] == ms[..k];
  }

  /** The records of one text block: the block text is stripped, then every match is taken. */
  function BlockRecords(block: string): seq<Record>
  {
    var text := Strip(block);
    Records(text, FindAllFrom(text, 0))
  }

  /** `f` applied to every item of `xs`, the results concatenated in order. */
  function ConcatMap<T, U>(xs: seq<T>, f: T -> seq<U>): (r: seq<U>)
    ensures xs == [] ==> r == []
  {
    if xs == [] then [] else ConcatMap(xs[..|xs| - 1], f) + f(Last(xs))
  }

  lemma ConcatMapSnoc<T, U>(xs: seq<T>, i: nat, f: T -> seq<U>)
    requires i < |xs|
    ensures ConcatMap(xs[..i + 1], f) == ConcatMap(xs[..i], f) + f(xs[i])
  {
    assert xs[..i + 1][..i] == xs[..i];
  }

  /** The concatenation is empty exactly when every part is. */
  lemma {:induction false} ConcatMapEmpty<T, U>(xs: seq<T>, f: T -> seq<U>)
    ensures ConcatMap(xs, f) == [] <==> forall k :: 0 <= k < |xs| ==> f(xs[k]) == []
  {
    if xs != [] {
      var init := xs[..|xs| - 1];
      ConcatMapEmpty(init, f);
      assert forall k :: 0 <= k < |init| ==> init[k] == xs[k];
    }
  }

  /** Every element of the concatenation comes from some part. */
  lemma {:induction false} ConcatMapFrom<T, U>(xs: seq<T>, f: T -> seq<U>, u: U)
    requires u in ConcatMap(xs, f)
    ensures exists k :: 0 <= k < |xs| && u in f(xs[k])
  {
    var init := xs[..|xs| - 1];
    if u !in f(Last(xs)) {
      ConcatMapFrom(init, f, u);
      var k :| 0 <= k < |init| && u in f(init[k]);
      assert init[k] == xs[k];
    }
  }

  /** The records of the blocks of one page, block after block. */
  function PageRecords(blocks: seq<string>): seq<Record>
  {
    ConcatMap(blocks, BlockRecords)
  }

  /** The records of a document, page after page. */
  function DocumentRecords(pages: seq<seq<string>>): seq<Record>
  {
    ConcatMap(pages, PageRecords)
  }

  /** A block yields no record exactly when the pattern fits nowhere in its stripped text. */
  lemma {:induction false} BlockRecordsEmpty(block: string)
    ensures BlockRecords(block) == [] <==> !HasMatch(Strip(block))
  {
    var text := Strip(block);
    var ms := FindAllFrom(text, 0);
    if ms != [] {
      assert IsMatch(text, ms[0]);
    }
    FindAllEmpty(text, 0);
    if exists g :: IsMatch(text, g) {
      var g :| IsMatch(text, g);
      MatchAtComplete(text, g);
    }
  }

  /** A page yields no record exactly when none of its blocks contains the pattern. */
  lemma PageRecordsEmpty(blocks: seq<string>)
    ensures PageRecords(blocks) == [] <==>
            forall k :: 0 <= k < |blocks| ==> !HasMatch(Strip(blocks[k]))
  {
    ConcatMapEmpty(blocks, BlockRecords);
    forall k | 0 <= k < |blocks| {
      BlockRecordsEmpty(blocks[k]);
    }
  }

  /** A document yields no record exactly when no block of any page contains the pattern. */
  lemma DocumentRecordsEmpty(pages: seq<seq<string>>)
    ensures DocumentRecords(pages) == [] <==>
            forall i, k :: 0 <= i < |pages| && 0 <= k < |pages[i]| ==> !HasMatch(Strip(pages[i][k]))
  {
    ConcatMapEmpty(pages, PageRecords);
    forall i | 0 <= i < |pages| {
      PageRecordsEmpty(pages[i]);
    }
  }

  lemma {:induction false} BlockRecordsWellFormed(block: string)
    ensures forall r :: r in BlockRecords(block) ==> WellFormed(r)
  {
    var text := Strip(block);
    var ms := FindAllFrom(text, 0);
    forall k | 0 <= k < |ms| {
      MatchRecordWellFormed(text, ms[k]);
    }
  }

  lemma PageRecordsWellFormed(blocks: seq<string>)
    ensures forall r :: r in PageRecords(blocks) ==> WellFormed(r)
  {
    forall r | r in PageRecords(blocks) ensures WellFormed(r) {
      ConcatMapFrom(blocks, BlockRecords, r);
      var k :| 0 <= k < |blocks| && r in BlockRecords(blocks[k]);
      BlockRecordsWellFormed(blocks[k]);
    }
  }

  /** Every record extracted from a document is well-formed. */
  lemma DocumentRecordsWellFormed(pages: seq<seq<string>>)
    ensures forall r :: r in DocumentRecords(pages) ==> WellFormed(r)
  {
    forall r | r in DocumentRecords(pages) ensures WellFormed(r) {
      ConcatMapFrom(pages, PageRecords, r);
      var i :| 0 <= i < |pages| && r in PageRecords(pages[i]);
      PageRecordsWellFormed(pages[i]);
    }
  }

  /** What opening the PDF gives: the file is missing, cannot be read, or yields its pages of blocks. */
  datatype PdfSource = Missing | Unreadable(reason: string) | Opened(pages: seq<seq<string>>)

  /** The exceptions the extractor raises, with their messages. */
  datatype PdfError =
    | FileNotFound(message: string)
    | ProcessingFailed(message: string)
    | UnsupportedFormat(message: string)

  const NoDataMessage: string := "No matching data found in PDF."

  /**
   * What extraction returns: a missing file is reported as such; any other fault, including
   * finding no record at all, is re-raised as "Error processing PDF: ...".
   */
  function Extraction(source: PdfSource, path: string): Result<seq<Record>, PdfError>
  {
    match source
    case Missing => Failure(FileNotFound("PDF file not found: " + path))
    case Unreadable(reason) => Failure(ProcessingFailed("Error processing PDF: " + reason))
    case Opened(pages) =>
      var records := DocumentRecords(pages);
      if records == [] then Failure(ProcessingFailed("Error processing PDF: " + NoDataMessage))
      else Success(records)
  }

  /** Extraction of an opened document succeeds exactly when some block holds the pattern. */
  lemma ExtractionSucceeds(pages: seq<seq<string>>, path: string)
    ensures Extraction(Opened(pages), path).Success? <==>
            exists i, k :: 0 <= i < |pages| && 0 <= k < |pages[i]| && HasMatch(Strip(pages[i][k]))
    ensures Extraction(Opened(pages), path).Failure? ==>
            Extraction(Opened(pages), path).error == ProcessingFailed("Error processing PDF: " + NoDataMessage)
  {
    DocumentRecordsEmpty(pages);
  }

  /** A successful extraction returns at least one record, and every record is well-formed. */
  lemma ExtractionWellFormed(source: PdfSource, path: string)
    ensures Extraction(source, path).Success? ==>
            Extraction(source, path).value != [] && forall r :: r in Extraction(source, path).value ==> WellFormed(r)
  {
    if source.Opened? {
      DocumentRecordsWellFormed(source.pages);
    }
  }

  /** The inner loops of `extract_data` for one block: strip its text, take every match, in order. */
  method ScanBlock(block: string) returns (rs: seq<Record>)
    ensures rs == BlockRecords(block)
  {
    var text := Strip(block);
    var matches := FindAllFrom(text, 0);
    rs := [];
    for k := 0 to |matches|
      invariant rs == Records(text, matches[..k])
    {
      RecordsSnoc(text, matches, k);
      rs := rs + [ToRecord(text, matches[k])];
    }
    assert matches[..|matches|] == matches;
  }

  /** The loop of `extract_data` over the blocks of one page. */
  method ScanPage(blocks: seq<string>) returns (rs: seq<Record>)
    ensures rs == PageRecords(blocks)
  {
    rs := [];
    for j := 0 to |blocks|
      invariant rs == PageRecords(blocks[..j])
    {
      var found := ScanBlock(blocks[j]);
      ConcatMapSnoc(blocks, j, BlockRecords);
      rs := rs + found;
    }
    assert blocks[..|blocks|] == blocks;
  }

  /**
   * `LightstonePDFParser.extract_data`: appends the records of every match of every block of
   * every page, then refuses an empty result.
   */
  method ExtractData(source: PdfSource, path: string) returns (r: Result<seq<Record>, PdfError>)
    ensures r == Extraction(source, path)
    ensures r.Success? ==> r.value != [] && forall x :: x in r.value ==> WellFormed(x)
  {
    match source {
      case Missing =>
        return Failure(FileNotFound("PDF file not found: " + path));
      case Unreadable(reason) =>
        return Failure(ProcessingFailed("Error processing PDF: " + reason));
      case Opened(pages) =>
        var results: seq<Record> := [];
        for i := 0 to |pages|
          invariant results == DocumentRecords(pages[..i])
        {
          var found := ScanPage(pages[i]);
          ConcatMapSnoc(pages, i, PageRecords);
          results := results + found;
        }
        assert pages[..|pages|] == pages;
        DocumentRecordsWellFormed(pages);
        if results == [] {
          return Failure(ProcessingFailed("Error processing PDF: " + NoDataMessage));
        }
        return Success(results);
    }
  }

  /** The parsers `extract_data_from_pdf` knows, by lower-cased format name. */
  datatype ParserKind = Lightstone

  const Parsers: map<string, ParserKind> := map["lightstone" := Lightstone]

  /** The parser for a format name; the lookup ignores the case of the name. */
  function ParserFor(formatType: string): (r: Option<ParserKind>)
    ensures r.Some? <==> Lower(formatType) == "lightstone"
  {
    var key := Lower(formatType);
    if key in Parsers then Some(Parsers[key]) else None
  }

  /** `extract_data_from_pdf`: an unknown format is refused before the document is touched. */
  method ExtractDataFromPdf(source: PdfSource, path: string, formatType: string)
    returns (r: Result<seq<Record>, PdfError>)
    ensures Lower(formatType) != "lightstone" ==>
              r == Failure(UnsupportedFormat("Unsupported PDF format: " + formatType))
    ensures Lower(formatType) == "lightstone" ==> r == Extraction(source, path)
  {
    var parser := ParserFor(formatType);
    if parser.None? {
      return Failure(UnsupportedFormat("Unsupported PDF format: " + formatType));
    }
    r := ExtractData(source, path);
  }

  const DefaultFormat: string := "lightstone"

  /** `extract_data_from_pdf(pdf_path)` with the format left at its default runs the extraction. */
  method ExtractDataFromPdfDefault(source: PdfSource, path: string) returns (r: Result<seq<Record>, PdfError>)
    ensures r == Extraction(source, path)
  {
    r := ExtractDataFromPdf(source, path, DefaultFormat);
  }
}
