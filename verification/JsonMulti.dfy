/** Whole runs of the codec: print then parse, and the many-documents reader `parse_multi`. */
module JsonMulti {
  import opened Decimal
  import opened JsonValue
  import opened JsonOrder
  import opened JsonGrammar
  import opened JsonDump
  import opened JsonParser
  import opened JsonAccepted
  import opened JsonRoundTrip

  /** The printer and the parser composed: the value comes back, or its depth is the only complaint. */
  method PrintAndParse(v: Json, st: Strategy) returns (w: Json, err: Error)
    requires Printable(v) && WellFormed(v)
    ensures Height(v) <= 200 ==> Eq(w, v) && err == NoError
    ensures Height(v) > 200 ==> w == Null && err == TooDeep
  {
    var text := Dump(v, []);
    assert [] + Text(v) == Text(v);
    RoundTrip(v, st);
    w, err := Parse(text, NoError, st);
  }

  datatype Failure = None | Some(error: Error)

  /** The documents of a text: values, where the last complete one ended, and what stopped the reading. */
  datatype Documents = Documents(values: seq<Json>, stop: nat, failure: Failure)

  function ReadAll(s: Bytes, i: nat, st: Strategy): Documents
    requires i <= |s|
    decreases |s| - i
  {
    if i == |s| then Documents([], i, None)
    else
      match ParseValue(s, i, 0, st)
      case Fail(e) => Documents([FailureValue(s, i, 0, st)], i, Some(e))
      case Ok(v, n) =>
        match SkipGarbage(s, n, st)
        case Fail(e) => Documents([v], i, Some(e))
        case Ok(_, m) =>
          var rest := ReadAll(s, m, st);
          Documents([v] + rest.values, rest.stop, rest.failure)
  }

  /** One document, when it reads, and the rest. */
  lemma ReadOne(s: Bytes, i: nat, st: Strategy)
    requires i < |s|
    ensures var p := ParseValue(s, i, 0, st);
            && (p.Fail? ==> ReadAll(s, i, st) == Documents([FailureValue(s, i, 0, st)], i, Some(p.error)))
            && (p.Ok? && SkipGarbage(s, p.next, st).Fail? ==>
                  ReadAll(s, i, st) == Documents([p.value], i, Some(SkipGarbage(s, p.next, st).error)))
            && (p.Ok? && SkipGarbage(s, p.next, st).Ok? ==>
                  var rest := ReadAll(s, SkipGarbage(s, p.next, st).next, st);
                  ReadAll(s, i, st) == Documents([p.value] + rest.values, rest.stop, rest.failure))
  {
    hide ParseValue, SkipGarbage, FailureValue;
  }

  lemma ReadNone(s: Bytes, st: Strategy)
    ensures ReadAll(s, |s|, st) == Documents([], |s|, None)
  {
  }

  /** One round of the loop: a value and the garbage behind it. */
  method NextDocument(parser: JsonParser) returns (v: Json)
    requires parser.i < |parser.str| && !parser.failed
    modifies parser
    ensures parser.i <= |parser.str|
    ensures var all := ReadAll(parser.str, old(parser.i), parser.strategy);
            if parser.failed then all == Documents([v], old(parser.i), Some(parser.err))
            else
              && old(parser.i) < parser.i && parser.err == old(parser.err)
              && var rest := ReadAll(parser.str, parser.i, parser.strategy);
              all == Documents([v] + rest.values, rest.stop, rest.failure)
  {
    hide ParseValue, SkipGarbage, FailureValue, ReadAll;
    ReadOne(parser.str, parser.i, parser.strategy);
    v := parser.ParseJson(0);
    if !parser.failed {
      parser.ConsumeGarbage();
    }
  }

  method ParseMulti(input: Bytes, err0: Error, st: Strategy) returns (values: seq<Json>, stop: nat, err: Error)
    ensures values == ReadAll(input, 0, st).values && stop == ReadAll(input, 0, st).stop
    ensures err == if ReadAll(input, 0, st).failure.Some? then ReadAll(input, 0, st).failure.error else err0
  {
    hide ParseValue, SkipGarbage, FailureValue, ReadAll;
    var parser := new JsonParser(input, err0, st);
    ghost var all := ReadAll(input, 0, st);
    values, stop := [], 0;
    assert [] + all.values == all.values;
    while parser.i != |input| && !parser.failed
      invariant fresh(parser) && parser.str == input && parser.strategy == st
      invariant parser.i <= |input| && stop <= |input|
      invariant !parser.failed ==> stop == parser.i && parser.err == err0
      invariant !parser.failed ==>
                  var rest := ReadAll(input, parser.i, st);
                  all == Documents(values + rest.values, rest.stop, rest.failure)
      invariant parser.failed ==> all == Documents(values, stop, Some(parser.err))
      decreases |input| - parser.i, !parser.failed
    {
      ghost var before := values;
      var v := NextDocument(parser);
      values := values + [v];
      if parser.failed {
        break;
      }
      stop := parser.i;
      assert before + ([v] + ReadAll(input, parser.i, st).values) == values + ReadAll(input, parser.i, st).values;
    }
    ReadNone(input, st);
    assert values + [] == values;
    err := parser.err;
  }

  /** The first token at `i` opens a string. */
  predicate QuoteAt(s: Bytes, i: nat, st: Strategy)
    requires i <= |s|
  {
    NextToken(s, i, st).Ok? && NextToken(s, i, st).value == QUOTE
  }

  /** What a failed reading leaves behind: `d` stopped at the document that starts at `d.stop`. */
  ghost predicate StopsWith(s: Bytes, st: Strategy, d: Documents) {
    && d.failure.Some? && d.stop < |s| && d.values != []
    && var p, last := ParseValue(s, d.stop, 0, st), d.values[|d.values| - 1];
       if p.Ok? then last == p.value && SkipGarbage(s, p.next, st) == Parsed.Fail(d.failure.error)
       else d.failure.error == p.error && last == if QuoteAt(s, d.stop, st) then Str([]) else Null
  }

  lemma FailureIsEmptyOrNull(s: Bytes, i: nat, st: Strategy)
    requires i <= |s| && ParseValue(s, i, 0, st).Fail?
    ensures FailureValue(s, i, 0, st) == if QuoteAt(s, i, st) then Str([]) else Null
  {
    hide ParseValue;
  }

  lemma {:induction false} FailureLeaves(s: Bytes, i: nat, st: Strategy)
    requires i <= |s|
    ensures ReadAll(s, i, st).failure.Some? ==> StopsWith(s, st, ReadAll(s, i, st))
    decreases |s| - i
  {
    hide ParseValue, SkipGarbage, FailureValue, ReadAll, QuoteAt;
    if i == |s| {
      ReadNone(s, st);
    } else {
      ReadOne(s, i, st);
      var p := ParseValue(s, i, 0, st);
      if p.Fail? {
        FailureIsEmptyOrNull(s, i, st);
      } else if SkipGarbage(s, p.next, st).Ok? {
        FailureLeaves(s, SkipGarbage(s, p.next, st).next, st);
      }
    }
  }

  /**
   * When the reading fails, the last value is the document that was complete when the garbage behind
   * it failed; if the document itself failed, it is null if and only if the document does not begin
   * with a quote, and otherwise the empty string.
   */
  lemma FailedDocument(s: Bytes, st: Strategy)
    ensures ReadAll(s, 0, st).failure.Some? ==> StopsWith(s, st, ReadAll(s, 0, st))
  {
    FailureLeaves(s, 0, st);
  }

  /** A witness: a lone quote yields one empty string. */
  lemma FailedStringIsEmpty(st: Strategy)
    ensures ReadAll([QUOTE], 0, st) == Documents([Str([])], 0, Some(EndInString))
  {
    TokenHere([QUOTE], 0, st);
    assert Lex([QUOTE], 1) == Parsed.Fail(EndInString);
  }

  function Lines(vs: seq<Json>): Bytes
    requires forall v :: v in vs ==> Printable(v)
  {
    if vs == [] then [] else Text(vs[0]) + ([LF] + Lines(vs[1..]))
  }

  lemma LineBreak(s: Bytes, n: nat, st: Strategy)
    requires n < |s| && s[n] == LF
    requires n + 1 < |s| ==> IsValueHead(s[n + 1])
    ensures Stops(At(s, n)) && SkipGarbage(s, n, st) == Ok((), n + 1)
  {
    assert SkipSpace(s, n + 1) == n + 1;
    assert SkipSpace(s, n) == n + 1;
  }

  lemma LinesHead(vs: seq<Json>)
    requires vs != [] && forall v :: v in vs ==> Printable(v)
    ensures Lines(vs) != [] && IsValueHead(Lines(vs)[0])
  {
    TextHead(vs[0]);
  }

  lemma {:induction false} LinesReadBack(vs: seq<Json>, s: Bytes, i: nat, st: Strategy)
    requires forall v :: v in vs ==> Printable(v) && WellFormed(v) && Height(v) <= 200
    requires Starts(s, i, Lines(vs)) && i + |Lines(vs)| == |s|
    ensures ReadAll(s, i, st) == Documents(RereadItems(vs), |s|, None)
    decreases |vs|
  {
    hide ParseValue, SkipGarbage, Text, Starts, ReadAll, FailureValue, Printable, WellFormed, Height, IsValueHead;
    if vs == [] {
      ReadNone(s, st);
    } else {
      var t, rest := Text(vs[0]), vs[1..];
      var n := i + |t|;
      StartsSplit(s, i, t, [LF] + Lines(rest));
      StartsSplit(s, n, [LF], Lines(rest));
      StartsByte(s, n, [LF], 0);
      if rest != [] {
        LinesHead(rest);
        StartsByte(s, n + 1, Lines(rest), 0);
      }
      LineBreak(s, n, st);
      ValueReadsBack(vs[0], s, i, 0, st);
      TextHead(vs[0]);
      ReadOne(s, i, st);
      LinesReadBack(rest, s, n + 1, st);
    }
  }

  /** Values printed one per line are all read back, in order, to the very end of the text. */
  lemma MultiRoundTrip(vs: seq<Json>, st: Strategy)
    requires forall v :: v in vs ==> Printable(v) && WellFormed(v) && Height(v) <= 200
    ensures var r := ReadAll(Lines(vs), 0, st);
            ItemsEq(r.values, vs) && r.stop == |Lines(vs)| && r.failure == None
  {
    WholeText(Lines(vs), st);
    LinesReadBack(vs, Lines(vs), 0, st);
    RereadItemsEq(vs);
  }
}
