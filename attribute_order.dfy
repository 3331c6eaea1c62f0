/**
 * `parseAttrOrder`: reads the attribute-order file, a list of `[TypeName]` headers
 * each followed by the attribute names of that type, one per line.
 */
module AttributeOrder {
  import opened Wrappers
  import Text

  /** The section map built so far and the section that content lines go to (`current`). */
  datatype ParseState = ParseState(orders: map<string, seq<string>>, current: Option<string>)

  const Initial := ParseState(map[], None)

  /** The group of `/^\[([^\]]*)\]$/`: `None` when the line does not match. */
  function HeaderName(line: string): (r: Option<string>)
    ensures r.Some? ==> line == "[" + r.value + "]" && ']' !in r.value
  {
    if |line| >= 2 && line[0] == '[' && line[|line| - 1] == ']' && ']' !in line[1..|line| - 1] then
      assert line == "[" + line[1..|line| - 1] + "]";
      Some(line[1..|line| - 1])
    else
      None
  }

  /** Every bracketed name without a closing bracket inside is accepted as a header. */
  lemma HeaderNameComplete(n: string)
    requires ']' !in n
    ensures HeaderName("[" + n + "]") == Some(n)
  {
    var line := "[" + n + "]";
    assert line[1..|line| - 1] == n;
  }

  /** A trimmed line that is neither blank nor a header: an attribute name. */
  predicate IsContent(raw: string)
  {
    var line := Text.Trim(raw);
    line != "" && line[0] != '['
  }

  predicate IsBlank(raw: string)
  {
    Text.Trim(raw) == ""
  }

  /** One iteration of the loop; a failure is the TypeError the script would throw. */
  function Step(st: ParseState, raw: string): (r: Result<ParseState>)
    requires Consistent(st)
    ensures r.Success? ==> Consistent(r.value)
  {
    var line := Text.Trim(raw);
    if line == "" then Success(st)
    else if line[0] == '[' then
      match HeaderName(line)
      case None => Failure("Cannot read property '1' of null")
      case Some(n) => Success(ParseState(st.orders[n := []], Some(n)))
    else
      match st.current
      case None => Failure("Cannot read property 'push' of null")
      case Some(c) => Success(st.(orders := st.orders[c := st.orders[c] + [line]]))
  }

  /** The section the parser writes to is always one of the recorded sections. */
  predicate Consistent(st: ParseState)
  {
    st.current.Some? ==> st.current.value in st.orders
  }

  /** Runs `Step` over `lines` starting from `st`. */
  function Run(st: ParseState, lines: seq<string>): (r: Result<ParseState>)
    requires Consistent(st)
    ensures r.Success? ==> Consistent(r.value)
  {
    if lines == [] then Success(st)
    else
      match Run(st, lines[..|lines| - 1])
      case Failure(e) => Failure(e)
      case Success(mid) => Step(mid, lines[|lines| - 1])
  }

  /** The map `parseAttrOrder(f)` returns, or the error it throws. */
  function AttrOrderOf(f: string): Result<map<string, seq<string>>>
  {
    match Run(Initial, Text.Split(f, '\n'))
    case Failure(e) => Failure(e)
    case Success(st) => Success(st.orders)
  }

  method ParseAttrOrder(f: string) returns (r: Result<map<string, seq<string>>>)
    ensures r == AttrOrderOf(f)
  {
    var lines := Text.Split(f, '\n');
    var orders: map<string, seq<string>> := map[];
    var current: Option<string> := None;
    var i := 0;
    while i < |lines|
      invariant 0 <= i <= |lines|
      invariant current.Some? ==> current.value in orders
      invariant Run(Initial, lines[..i]) == Success(ParseState(orders, current))
    {
      ghost var before := ParseState(orders, current);
      Text.TakeSnoc(lines, i);
      RunSnoc(Initial, lines[..i], lines[i]);
      var line := Text.Trim(lines[i]);
      if line == "" {
        StepBlank(before, lines[i]);
      } else if line[0] == '[' {
        var header := HeaderName(line);
        if header.None? {
          FailureKept(lines, i + 1);
          return Failure("Cannot read property '1' of null");
        }
        StepHeader(before, lines[i], header.value);
        current := header;
        orders := orders[header.value := []];
      } else {
        if current.None? {
          FailureKept(lines, i + 1);
          return Failure("Cannot read property 'push' of null");
        }
        StepContent(orders, lines[i], current.value);
        orders := orders[current.value := orders[current.value] + [line]];
      }
      i := i + 1;
    }
    assert lines[..i] == lines;
    return Success(orders);
  }

  /** Once a prefix of the lines fails, the whole file fails with the same error. */
  lemma FailureKept(lines: seq<string>, i: nat)
    requires i <= |lines|
    requires Run(Initial, lines[..i]).Failure?
    ensures Run(Initial, lines) == Run(Initial, lines[..i])
  {
    assert lines == lines[..i] + lines[i..];
    RunAppend(Initial, lines[..i], lines[i..]);
  }

  /** Running two pieces one after the other is running their concatenation. */
  lemma {:induction false} RunAppend(st: ParseState, a: seq<string>, b: seq<string>)
    requires Consistent(st)
    ensures Run(st, a + b) == (match Run(st, a) case Failure(e) => Failure(e) case Success(mid) => Run(mid, b))
    decreases |b|
  {
    if b == [] {
      assert a + b == a;
    } else {
      assert (a + b)[..|a + b| - 1] == a + b[..|b| - 1];
      RunAppend(st, a, b[..|b| - 1]);
    }
  }

  /** Blank lines, wherever they stand, do not change the result. */
  lemma BlankLineIgnored(st: ParseState, a: seq<string>, blank: string, b: seq<string>)
    requires Consistent(st) && IsBlank(blank)
    ensures Run(st, a + [blank] + b) == Run(st, a + b)
  {
    RunAppend(st, a + [blank], b);
    RunAppend(st, a, [blank]);
    RunAppend(st, a, b);
  }

  /**
   * A header line followed by attribute lines records exactly those attributes, trimmed
   * and in file order, under the header's name, replacing any earlier section of that
   * name, and leaves every other section as it was.
   */
  lemma {:induction false} SectionRecorded(st: ParseState, header: string, body: seq<string>, n: string)
    requires Consistent(st)
    requires HeaderName(Text.Trim(header)) == Some(n)
    requires forall k :: 0 <= k < |body| ==> IsContent(body[k])
    ensures Run(st, [header] + body) == Success(ParseState(st.orders[n := TrimAll(body)], Some(n)))
    decreases |body|
  {
    if body == [] {
      HeaderStep(st, header, n);
    } else {
      var init, last := body[..|body| - 1], body[|body| - 1];
      SectionRecorded(st, header, init, n);
      SectionExtended(st, header, init, last, n);
      assert body == init + [last];
    }
  }

  /** One more attribute line appends its trimmed text to the open section. */
  lemma SectionExtended(st: ParseState, header: string, init: seq<string>, last: string, n: string)
    requires Consistent(st) && IsContent(last)
    requires Run(st, [header] + init) == Success(ParseState(st.orders[n := TrimAll(init)], Some(n)))
    ensures Run(st, [header] + (init + [last])) == Success(ParseState(st.orders[n := TrimAll(init + [last])], Some(n)))
  {
    var mid := ParseState(st.orders[n := TrimAll(init)], Some(n));
    assert [header] + (init + [last]) == [header] + init + [last];
    RunSnoc(st, [header] + init, last);
    StepContent(mid.orders, last, n);
    SectionSnoc(st.orders, init, last, n);
  }

  lemma SectionSnoc(orders: map<string, seq<string>>, init: seq<string>, last: string, n: string)
    ensures orders[n := TrimAll(init)][n := TrimAll(init) + [Text.Trim(last)]] == orders[n := TrimAll(init + [last])]
  {
    TrimAllSnoc(init, last);
  }

  lemma HeaderStep(st: ParseState, header: string, n: string)
    requires Consistent(st)
    requires HeaderName(Text.Trim(header)) == Some(n)
    ensures Run(st, [header] + []) == Success(ParseState(st.orders[n := []], Some(n)))
  {
    assert [header] + [] == [header] && [header][..0] == [];
    assert Run(st, [header]) == Step(st, header);
    assert Text.Trim(header) != "" && Text.Trim(header)[0] == '[';
  }

  lemma RunSnoc(st: ParseState, init: seq<string>, last: string)
    requires Consistent(st)
    ensures Run(st, init + [last]) == (match Run(st, init) case Failure(e) => Failure(e) case Success(mid) => Step(mid, last))
  {
    var lines := init + [last];
    assert lines[..|lines| - 1] == init && lines[|lines| - 1] == last;
  }

  lemma StepBlank(st: ParseState, raw: string)
    requires Consistent(st) && IsBlank(raw)
    ensures Step(st, raw) == Success(st)
  {
  }

  lemma StepHeader(st: ParseState, raw: string, n: string)
    requires Consistent(st) && Text.Trim(raw) != "" && Text.Trim(raw)[0] == '['
    requires HeaderName(Text.Trim(raw)) == Some(n)
    ensures Step(st, raw) == Success(ParseState(st.orders[n := []], Some(n)))
  {
  }

  lemma StepContent(o: map<string, seq<string>>, last: string, n: string)
    requires n in o
    requires IsContent(last)
    ensures Step(ParseState(o, Some(n)), last) == Success(ParseState(o[n := o[n] + [Text.Trim(last)]], Some(n)))
  {
  }

  lemma TrimAllSnoc(init: seq<string>, last: string)
    ensures TrimAll(init + [last]) == TrimAll(init) + [Text.Trim(last)]
  {
    assert (init + [last])[..|init|] == init;
  }

  /** Every line trimmed, in order. */
  function TrimAll(lines: seq<string>): (r: seq<string>)
    ensures |r| == |lines|
    ensures forall k :: 0 <= k < |lines| ==> r[k] == Text.Trim(lines[k])
  {
    if lines == [] then [] else TrimAll(lines[..|lines| - 1]) + [Text.Trim(lines[|lines| - 1])]
  }

  /** An attribute line before any header makes the parser fail. */
  lemma ContentBeforeHeaderFails(blanks: seq<string>, line: string, rest: seq<string>)
    requires forall k :: 0 <= k < |blanks| ==> IsBlank(blanks[k])
    requires IsContent(line)
    ensures Run(Initial, blanks + [line] + rest).Failure?
  {
    BlanksKeepState(Initial, blanks);
    RunAppend(Initial, blanks, [line]);
    assert Run(Initial, blanks + [line]).Failure?;
    RunAppend(Initial, blanks + [line], rest);
  }

  lemma {:induction false} BlanksKeepState(st: ParseState, blanks: seq<string>)
    requires Consistent(st)
    requires forall k :: 0 <= k < |blanks| ==> IsBlank(blanks[k])
    ensures Run(st, blanks) == Success(st)
    decreases |blanks|
  {
    if blanks != [] {
      BlanksKeepState(st, blanks[..|blanks| - 1]);
    }
  }
}
