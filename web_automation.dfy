/**
 * The contact-table scrape of the Virtual Agent test run: link texts are cleaned and checked
 * against `^0[0-9]{9}$`, at most three numbers are kept, and the run's outcome is reported as a
 * status, a message and the numbers.  The browser is abstracted: what the page yields is given as
 * data.
 */
module WebAutomation {
  import opened Wrappers
  import opened Text

  /** The characters `re.sub(r'[\s\(\)-]', '', ...)` deletes. */
  predicate IsFiller(c: char)
  {
    IsSpace(c) || c == '(' || c == ')' || c == '-'
  }

  /** A link text, stripped and cleaned of whitespace, parentheses and dashes. */
  function Clean(text: string): (r: string)
    ensures forall k :: 0 <= k < |r| ==> !IsFiller(r[k])
  {
    RemoveWhere(Strip(text), IsFiller)
  }

  /** Stripping first changes nothing: the whitespace it trims would be deleted anyway. */
  lemma CleanIgnoresStrip(text: string)
    ensures Clean(text) == RemoveWhere(text, IsFiller)
  {
    var i := SkipSpaces(text, 0);
    var j := SkipSpacesBack(text, i, |text|);
    SkipSpacesSpec(text, 0);
    SkipSpacesBackSpec(text, i, |text|);
    RemoveWhereTrim(text, i, j, IsFiller);
  }

  /** `re.match(r"^0[0-9]{9}$", s)`; `$` could also match before a final newline, which a cleaned text never has. */
  predicate IsPhoneNumber(s: string)
  {
    |s| == 10 && s[0] == '0' && AllDigits(s)
  }

  /** The numbers the texts yield, in order: each text cleaned, the ones that fit kept. */
  function ValidNumbers(texts: seq<string>): (r: seq<string>)
    ensures |r| <= |texts|
    ensures forall n :: n in r ==> IsPhoneNumber(n)
  {
    if texts == [] then []
    else
      var n := Clean(Last(texts));
      ValidNumbers(texts[..|texts| - 1]) + (if IsPhoneNumber(n) then [n] else [])
  }

  lemma {:induction false} ValidNumbersAppend(a: seq<string>, b: seq<string>)
    ensures ValidNumbers(a + b) == ValidNumbers(a) + ValidNumbers(b)
    decreases |b|
  {
    if b == [] {
      assert a + b == a;
    } else {
      var init := b[..|b| - 1];
      assert (a + b)[..|a + b| - 1] == a + init;
      ValidNumbersAppend(a, init);
    }
  }

  /** A number is kept exactly when it is valid and is the cleaned form of one of the texts. */
  lemma {:induction false} ValidNumbersMember(texts: seq<string>, n: string)
    ensures n in ValidNumbers(texts) <==> IsPhoneNumber(n) && exists t :: t in texts && Clean(t) == n
  {
    if texts != [] {
      var init := texts[..|texts| - 1];
      var last := texts[|texts| - 1];
      ValidNumbersMember(init, n);
      assert texts == init + [last];
      if n in ValidNumbers(texts) && n !in ValidNumbers(init) {
        assert Clean(last) == n && last in texts;
      }
      if IsPhoneNumber(n) && exists t :: t in texts && Clean(t) == n {
        var t :| t in texts && Clean(t) == n;
        if t != last {
          assert t in init;
        }
      }
    }
  }

  /** The cleaned text of a single link is kept exactly when it is a valid number. */
  lemma ValidNumbersSingle(t: string)
    ensures ValidNumbers([t]) == if IsPhoneNumber(Clean(t)) then [Clean(t)] else []
  {
    assert [t][..0] == [];
  }

  /** The texts of the links up to the first one whose text cannot be read (None). */
  function ReadablePrefix(links: seq<Option<string>>): (r: seq<string>)
    ensures |r| <= |links|
  {
    if links == [] || links[0].None? then []
    else [links[0].value] + ReadablePrefix(links[1..])
  }

  /** The texts read are those of the leading links, and reading stops at an unreadable one. */
  lemma {:induction false} ReadablePrefixSpec(links: seq<Option<string>>)
    ensures forall k :: 0 <= k < |ReadablePrefix(links)| ==> links[k] == Some(ReadablePrefix(links)[k])
    ensures |ReadablePrefix(links)| < |links| ==> links[|ReadablePrefix(links)|].None?
  {
    if links != [] && links[0].Some? {
      var rest := ReadablePrefix(links[1..]);
      ReadablePrefixSpec(links[1..]);
      assert ReadablePrefix(links) == [links[0].value] + rest;
    }
  }

  /** Reading stops at the first unreadable link; before it, a split of the links splits the texts. */
  lemma {:induction false} ReadablePrefixSplit(links: seq<Option<string>>, i: nat)
    requires i <= |links| && forall k :: 0 <= k < i ==> links[k].Some?
    ensures ReadablePrefix(links) == ReadablePrefix(links[..i]) + ReadablePrefix(links[i..])
  {
    if i > 0 {
      var head := links[..i];
      assert head[0] == links[0];
      assert links[1..][..i - 1] == head[1..];
      assert links[1..][i - 1..] == links[i..];
      ReadablePrefixSplit(links[1..], i - 1);
      assert ReadablePrefix(links) == [links[0].value] + ReadablePrefix(links[1..]);
      assert ReadablePrefix(head) == [links[0].value] + ReadablePrefix(head[1..]);
    } else {
      assert links[i..] == links;
    }
  }

  /** `xs[:n]`. */
  function Take<T>(xs: seq<T>, n: nat): (r: seq<T>)
    ensures |r| <= n && |r| <= |xs| && r == xs[..|r|]
    ensures |xs| <= n ==> r == xs
    ensures n <= |xs| ==> |r| == n
  {
    if |xs| <= n then xs else xs[..n]
  }

  /** What the contact page offers: no table (the wait timed out), or its links, each readable or not. */
  datatype ContactTable = NoTable | Links(links: seq<Option<string>>)

  const MaxNumbers: nat := 3

  /** The numbers `extract_phone_numbers` returns for a contact table. */
  function PhoneNumbers(table: ContactTable): (r: seq<string>)
    ensures |r| <= MaxNumbers
    ensures forall n :: n in r ==> IsPhoneNumber(n)
    ensures table.NoTable? ==> r == []
    ensures table.Links? ==>
              var v := ValidNumbers(ReadablePrefix(table.links));
              |r| == (if |v| < MaxNumbers then |v| else MaxNumbers) && r == v[..|r|]
  {
    match table
    case NoTable => []
    case Links(links) => Take(ValidNumbers(ReadablePrefix(links)), MaxNumbers)
  }

  /** Every number returned is the cleaned text of a link read before the first unreadable one. */
  lemma PhoneNumbersFromLinks(links: seq<Option<string>>, n: string)
    requires n in PhoneNumbers(Links(links))
    ensures exists k :: 0 <= k < |links| && links[k].Some? && Clean(links[k].value) == n &&
                        forall j :: 0 <= j < k ==> links[j].Some?
  {
    var texts := ReadablePrefix(links);
    assert n in ValidNumbers(texts);
    ValidNumbersMember(texts, n);
    var t :| t in texts && Clean(t) == n;
    var k :| 0 <= k < |texts| && texts[k] == t;
    ReadablePrefixSpec(links);
    assert links[k] == Some(t);
  }

  /**
   * No valid number is skipped: a readable link whose cleaned text is valid, reached while fewer
   * than three numbers are held, has its number returned.
   */
  lemma PhoneNumbersKeeps(links: seq<Option<string>>, k: nat)
    requires k < |links| && forall j :: 0 <= j <= k ==> links[j].Some?
    requires IsPhoneNumber(Clean(links[k].value))
    requires |ValidNumbers(ReadablePrefix(links[..k]))| < MaxNumbers
    ensures Clean(links[k].value) in PhoneNumbers(Links(links))
  {
    var before := ReadablePrefix(links[..k]);
    var after := ReadablePrefix(links[k + 1..]);
    ReadablePrefixSplit(links, k + 1);
    ReadablePrefixSnoc(links, k);
    ValidNumbersAppend(before + [links[k].value], after);
    ValidNumbersAppend(before, [links[k].value]);
    ValidNumbersSingle(links[k].value);
    var a := ValidNumbers(before);
    var v := ValidNumbers(ReadablePrefix(links));
    assert v == a + [Clean(links[k].value)] + ValidNumbers(after);
    assert v[|a|] == Clean(links[k].value);
    assert PhoneNumbers(Links(links))[|a|] == v[|a|];
  }

  /**
   * `extract_phone_numbers`: walks the links in order, stops once three numbers are held, and on
   * a fault keeps what it has collected.
   */
  method ExtractPhoneNumbers(table: ContactTable) returns (numbers: seq<string>)
    ensures numbers == PhoneNumbers(table)
  {
    numbers := [];
    if table.NoTable? {
      return;
    }
    var links := table.links;
    var i := 0;
    while i < |links|
      invariant 0 <= i <= |links|
      invariant forall k :: 0 <= k < i ==> links[k].Some?
      invariant numbers == ValidNumbers(ReadablePrefix(links[..i]))
      invariant |numbers| <= MaxNumbers
    {
      if |numbers| >= MaxNumbers {
        break;
      }
      if links[i].None? {
        break;
      }
      var cleaned := Clean(links[i].value);
      ReadablePrefixSnoc(links, i);
      if IsPhoneNumber(cleaned) {
        numbers := numbers + [cleaned];
      }
      i := i + 1;
    }
    NumbersSoFar(links, i, numbers);
  }

  /** One more readable link adds its text to the readable prefix. */
  lemma ReadablePrefixSnoc(links: seq<Option<string>>, i: nat)
    requires i < |links| && forall k :: 0 <= k <= i ==> links[k].Some?
    ensures ReadablePrefix(links[..i + 1]) == ReadablePrefix(links[..i]) + [links[i].value]
  {
    ReadablePrefixSplit(links[..i + 1], i);
    assert links[..i + 1][..i] == links[..i];
    assert links[..i + 1][i..] == [links[i]];
  }

  /**
   * Where the scan may stop: at the end, at an unreadable link, or holding three numbers; in each
   * case what it holds is the first three numbers of the readable links.
   */
  lemma NumbersSoFar(links: seq<Option<string>>, i: nat, numbers: seq<string>)
    requires i <= |links| && forall k :: 0 <= k < i ==> links[k].Some?
    requires numbers == ValidNumbers(ReadablePrefix(links[..i])) && |numbers| <= MaxNumbers
    requires i == |links| || links[i].None? || |numbers| == MaxNumbers
    ensures numbers == Take(ValidNumbers(ReadablePrefix(links)), MaxNumbers)
  {
    ReadablePrefixSplit(links, i);
    ValidNumbersAppend(ReadablePrefix(links[..i]), ReadablePrefix(links[i..]));
    if i == |links| {
      assert links[i..] == [];
    }
  }

  /** Digits at the end survive cleaning as they are. */
  lemma AppendDigits(x: string, d: string)
    requires AllDigits(d)
    ensures RemoveWhere(x + d, IsFiller) == RemoveWhere(x, IsFiller) + d
  {
    RemoveWhereNoneDropped(d, IsFiller);
    RemoveWhereAppend(x, d, IsFiller);
  }

  /** Filler at the end vanishes. */
  lemma AppendFiller(x: string, f: string)
    requires forall k :: 0 <= k < |f| ==> IsFiller(f[k])
    ensures RemoveWhere(x + f, IsFiller) == RemoveWhere(x, IsFiller)
  {
    RemoveWhereAllDropped(f, IsFiller);
    RemoveWhereAppend(x, f, IsFiller);
    assert RemoveWhere(x, IsFiller) + [] == RemoveWhere(x, IsFiller);
  }

  /** A group of digits after a separator joins the cleaned text without it. */
  lemma AppendGroup(x: string, sep: string, d: string)
    requires forall k :: 0 <= k < |sep| ==> IsFiller(sep[k])
    requires AllDigits(d)
    ensures RemoveWhere(x + sep + d, IsFiller) == RemoveWhere(x, IsFiller) + d
  {
    AppendDigits(x + sep, d);
    AppendFiller(x, sep);
  }

  /** Groups of digits separated by single spaces clean to the digits run together. */
  lemma CleanSpaced(a: string, b: string, c: string)
    requires AllDigits(a) && AllDigits(b) && AllDigits(c)
    ensures Clean(a + " " + b + " " + c) == a + b + c
  {
    CleanIgnoresStrip(a + " " + b + " " + c);
    AppendGroup(a + " " + b, " ", c);
    AppendGroup(a, " ", b);
    RemoveWhereNoneDropped(a, IsFiller);
  }

  /** Digits with the leading group in parentheses clean to the digits run together. */
  lemma CleanBracketed(a: string, b: string)
    requires AllDigits(a) && AllDigits(b)
    ensures Clean("(" + a + ")" + b) == a + b
  {
    CleanIgnoresStrip("(" + a + ")" + b);
    AppendGroup("(" + a, ")", b);
    AppendGroup("", "(", a);
    assert "" + "(" + a == "(" + a;
    assert RemoveWhere("", IsFiller) == [];
  }

  /** Two spellings of one number clean to the same valid number. */
  lemma CleanSpacedExample()
    ensures Clean("012 345 6789") == "0123456789" && IsPhoneNumber("0123456789")
  {
    CleanSpaced("012", "345", "6789");
    assert "012" + " " + "345" + " " + "6789" == "012 345 6789";
  }

  /** The same number with its area code in parentheses; a text too short to be a number is rejected. */
  lemma CleanBracketedExample()
    ensures Clean("(012)3456789") == "0123456789"
    ensures !IsPhoneNumber(Clean("12345"))
  {
    CleanBracketed("012", "3456789");
    assert "(" + "012" + ")" + "3456789" == "(012)3456789";
  }

  /** How the scripted session went before the contact section: a step timed out, failed, or all went through. */
  datatype Session =
    | StepTimedOut(detail: string)
    | StepFailed(detail: string)
    | ReachedContacts(table: ContactTable)

  /** The result dictionary of `test_virtual_agent`. */
  datatype AgentResult = AgentResult(status: string, message: string, phoneNumbers: seq<string>)

  const NoNumbersMessage: string := "Test completed, but no phone numbers found"
  const SuccessMessage: string := "Test automation completed successfully"

  /**
   * `test_virtual_agent`: the result starts as an error with no numbers; a run that reaches the
   * contacts succeeds with the numbers found and a message saying whether there were any; a
   * timed-out or failed step keeps the error status and reports the fault.
   */
  method TestVirtualAgent(session: Session) returns (result: AgentResult)
    ensures session.ReachedContacts? ==>
              result.status == "success" && result.phoneNumbers == PhoneNumbers(session.table)
              && (result.message == NoNumbersMessage <==> result.phoneNumbers == [])
              && (result.phoneNumbers != [] ==> result.message == SuccessMessage)
    ensures session.StepTimedOut? ==>
              result == AgentResult("error", "Timeout error: " + session.detail, [])
    ensures session.StepFailed? ==>
              result == AgentResult("error", "Unexpected error: " + session.detail, [])
  {
    result := AgentResult("error", "Unknown error", []);
    match session {
      case StepTimedOut(detail) =>
        result := result.(message := "Timeout error: " + detail);
      case StepFailed(detail) =>
        result := result.(message := "Unexpected error: " + detail);
      case ReachedContacts(table) =>
        var numbers := ExtractPhoneNumbers(table);
        if numbers == [] {
          result := result.(message := NoNumbersMessage);
        } else {
          result := result.(message := SuccessMessage);
        }
        result := result.(status := "success", phoneNumbers := numbers);
    }
  }
}
