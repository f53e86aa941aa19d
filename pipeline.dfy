/** `Parse` of bibtex/bibtex.go:11-20, from the text `bibtool` prints on. */
module Pipeline {
  import opened Wrappers
  import opened GoStrings
  import opened Latex
  import opened Entries

  /** Records are cut at a newline followed by `@`. */
  const EntrySep := "\n@"

  /**
   * Line 14: the cleaned text split at every record start; the text before
   * the first one is dropped.
   */
  function Blocks(clean: string): seq<string>
  {
    Split(clean, EntrySep)[1..]
  }

  /** What `parseEntry` makes of each trimmed block (line 16). */
  function ParsedBlocks(blocks: seq<string>): (ps: seq<Result<Entry, EntryError>>)
    ensures |ps| == |blocks| && forall i :: 0 <= i < |blocks| ==> ps[i] == ParsedEntry(TrimSpace(blocks[i]))
  {
    seq(|blocks|, i requires 0 <= i < |blocks| => ParsedEntry(TrimSpace(blocks[i])))
  }

  /** The block whose record panicked, and why. */
  datatype Failure = Failure(block: nat, error: EntryError)

  /** The strings handed to the sink, in order, and the failure that stopped the loop, if any. */
  datatype Run = Run(calls: seq<string>, failure: Option<Failure>)

  /** The loop of lines 15-19 from block `i` on. */
  function RunFrom(parsed: seq<Result<Entry, EntryError>>, formatter: Entry -> string, i: nat): Run
    requires i <= |parsed|
    decreases |parsed| - i
  {
    if i == |parsed| then Run([], None)
    else match parsed[i]
      case Err(e) => Run([], Some(Failure(i, e)))
      case Ok(m) =>
        var rest := RunFrom(parsed, formatter, i + 1);
        Run([formatter(m)] + rest.calls, rest.failure)
  }

  /** What line 18 appends to the output for each string handed to the sink. */
  function Appended(calls: seq<string>): string
  {
    if calls == [] then "" else Appended(calls[..|calls| - 1]) + calls[|calls| - 1] + "\n"
  }

  /**
   * `Parse`: formats every record, hands each formatted string to the sink
   * (recorded as `calls`) and appends it with a newline to `output`.
   */
  method Parse(output: string, text: string, formatter: Entry -> string)
    returns (out: string, calls: seq<string>, failure: Option<Failure>)
    ensures Run(calls, failure) == RunFrom(ParsedBlocks(Blocks(Cleanup(text))), formatter, 0)
    ensures out == output + Appended(calls)
  {
    var clean := Cleanup(text);
    var sl := Split(clean, EntrySep)[1..];
    ghost var parsed := ParsedBlocks(sl);
    out, calls, failure := output, [], None;
    var i := 0;
    while i < |sl|
      invariant 0 <= i <= |sl|
      invariant out == output + Appended(calls)
      invariant RunFrom(parsed, formatter, 0)
        == Run(calls + RunFrom(parsed, formatter, i).calls, RunFrom(parsed, formatter, i).failure)
    {
      var r := ParseEntry(TrimSpace(sl[i]));
      assert parsed[i] == r;
      match r
      case Err(e) =>
        RunStop(parsed, formatter, i);
        assert calls + [] == calls;
        failure := Some(Failure(i, e));
        return;
      case Ok(m) =>
        RunStep(parsed, formatter, i);
        var s := formatter(m);
        AppendedStep(output, calls, s);
        Associative(calls, [s], RunFrom(parsed, formatter, i + 1).calls);
        calls := calls + [s];
        out := out + s + "\n";
        i := i + 1;
    }
    assert calls + [] == calls;
  }

  /** Appending to the output one more string for the sink. */
  lemma AppendedStep(output: string, calls: seq<string>, s: string)
    ensures output + Appended(calls + [s]) == output + Appended(calls) + s + "\n"
  {
    assert (calls + [s])[..|calls|] == calls;
  }

  /** Regrouping the sink trace; a lemma of its own keeps `Parse`'s loop proof small. */
  lemma Associative<T>(a: seq<T>, b: seq<T>, c: seq<T>)
    ensures a + (b + c) == (a + b) + c
  {
  }

  /** A block that fails stops the loop. */
  lemma RunStop(parsed: seq<Result<Entry, EntryError>>, formatter: Entry -> string, i: nat)
    requires i < |parsed| && parsed[i].Err?
    ensures RunFrom(parsed, formatter, i) == Run([], Some(Failure(i, parsed[i].error)))
  {
  }

  /** A block that parses hands its formatted record to the sink and the loop goes on. */
  lemma RunStep(parsed: seq<Result<Entry, EntryError>>, formatter: Entry -> string, i: nat)
    requires i < |parsed| && parsed[i].Ok?
    ensures RunFrom(parsed, formatter, i) == Run([formatter(parsed[i].value)] + RunFrom(parsed, formatter, i + 1).calls, RunFrom(parsed, formatter, i + 1).failure)
  {
  }

  /**
   * The sink receives the formatted records of the blocks from `i` on, in
   * order, up to the first block that fails; the run fails exactly when some
   * block fails, and then names the first such block and its error.
   */
  lemma {:induction false} RunFromCalls(parsed: seq<Result<Entry, EntryError>>, formatter: Entry -> string, i: nat)
    requires i <= |parsed|
    ensures i + |RunFrom(parsed, formatter, i).calls| <= |parsed|
    ensures RunFrom(parsed, formatter, i).failure.None? <==> forall j :: i <= j < |parsed| ==> parsed[j].Ok?
    ensures RunFrom(parsed, formatter, i).failure.None? ==> i + |RunFrom(parsed, formatter, i).calls| == |parsed|
    ensures RunFrom(parsed, formatter, i).failure.Some? ==>
      var n := i + |RunFrom(parsed, formatter, i).calls|;
      n < |parsed| && parsed[n].Err? && RunFrom(parsed, formatter, i).failure == Some(Failure(n, parsed[n].error))
    decreases |parsed| - i
  {
    if i < |parsed| {
      match parsed[i]
      case Err(e) =>
      case Ok(m) => RunFromCalls(parsed, formatter, i + 1);
    }
  }

  /** The `j`-th string the sink receives is the formatted record of block `i + j`, which parsed. */
  lemma {:induction false} RunFromCall(parsed: seq<Result<Entry, EntryError>>, formatter: Entry -> string, i: nat, j: nat)
    requires i <= |parsed| && j < |RunFrom(parsed, formatter, i).calls|
    ensures i + j < |parsed| && parsed[i + j].Ok?
    ensures RunFrom(parsed, formatter, i).calls[j] == formatter(parsed[i + j].value)
    decreases j
  {
    match parsed[i]
    case Ok(m) =>
      if j > 0 {
        RunFromCall(parsed, formatter, i + 1, j - 1);
      }
  }

  /** A text without a record start yields no record and no sink call. */
  lemma NoRecords(clean: string, formatter: Entry -> string)
    requires IndexOf(clean, EntrySep) < 0
    ensures Blocks(clean) == []
    ensures RunFrom(ParsedBlocks(Blocks(clean)), formatter, 0) == Run([], None)
  {
    SplitNone(clean, EntrySep);
  }

  /** One block per record start in the cleaned text. */
  lemma BlockCount(clean: string)
    ensures |Blocks(clean)| == Count(clean, EntrySep)
  {
    SplitCount(clean, EntrySep);
  }

  /** No proper prefix of the record start is also a suffix of it. */
  lemma NoBorder()
    ensures forall n :: 0 < n < |EntrySep| ==> EntrySep[..n] != EntrySep[|EntrySep| - n..]
  {
    forall n | 0 < n < |EntrySep| ensures EntrySep[..n] != EntrySep[|EntrySep| - n..] {
      assert EntrySep[..n][0] == '\n' && EntrySep[|EntrySep| - n..][0] == '@';
    }
  }

  /** Cleaned text made of a preamble and records, none holding a record start, yields those records. */
  lemma BlocksOf(preamble: string, records: seq<string>)
    requires IndexOf(preamble, EntrySep) < 0
    requires forall k :: 0 <= k < |records| ==> IndexOf(records[k], EntrySep) < 0
    ensures Blocks(Join([preamble] + records, EntrySep)) == records
  {
    var parts := [preamble] + records;
    forall k | 0 <= k < |parts| ensures IndexOf(parts[k], EntrySep) < 0 {
      if k > 0 {
        assert parts[k] == records[k - 1];
      }
    }
    NoBorder();
    PiecesOf(parts, EntrySep);
    SplitJoin(parts, EntrySep);
    assert parts[1..] == records;
  }
}
