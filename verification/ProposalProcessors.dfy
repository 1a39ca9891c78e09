/** Processing and saving proposals (isaac/proposal_processors.go, isaac/proposal_processor.go). */
module ProposalProcessors {
  import opened Wrappers
  import opened Points

  datatype Error =
    | AlreadyProcessed | AlreadyCanceled | AlreadySaved | NotProcessed | ProcessFailed | WriterFailed | FetchFailed

  /** An ACCEPT voteproof with a majority: its height and the new block it agreed on. */
  datatype Accept = Accept(height: int, newBlock: string)

  /** How the operations of a proposal get processed; an error may be one that is to be ignored. */
  datatype Processed = Manifest(hash: Option<string>) | Broken(ignored: bool)

  /** How far the block writer gets. */
  datatype Writer = InitFails | AcceptFails | SaveFails | Saves

  // ---------------------------------------------------------------- one processor, specification

  /** `writes` records the blocks with which the processor called the writer's Save. */
  datatype Proc = Proc(
    proposal: string, manifest: Option<string>, isprocessed: bool, issaved: bool, canceled: bool, writes: seq<string>)

  function NewProc(proposal: string): Proc {
    Proc(proposal, None, false, false, false, [])
  }

  function ProcessProc(p: Proc, processed: Processed): (Proc, Result<Option<string>, Error>) {
    if p.isprocessed then (p, Err(AlreadyProcessed))
    else if p.canceled then (p, Err(AlreadyCanceled))
    else if processed.Broken? then (p, Err(ProcessFailed))
    else (p.(isprocessed := true, manifest := processed.hash), Ok(processed.hash))
  }

  function SaveProc(p: Proc, avp: Accept, writer: Writer): (Proc, Result<string, Error>) {
    if p.issaved then (p, Err(AlreadySaved))
    else if p.canceled then (p, Err(AlreadyCanceled))
    else
      var p' := p.(issaved := true, canceled := true);
      if p.manifest != Some(avp.newBlock) then (p', Err(NotProcessed))
      else if writer.InitFails? || writer.AcceptFails? then (p', Err(WriterFailed))
      else
        (p'.(writes := p.writes + [avp.newBlock]), if writer.Saves? then Ok(avp.newBlock) else Err(WriterFailed))
  }

  function CancelProc(p: Proc): Proc {
    p.(canceled := true)
  }

  // ---------------------------------------------------------------- one processor, code

  class DefaultProposalProcessor {
    const proposal: string
    var manifest: Option<string>
    var isprocessed: bool
    var issaved: bool
    var canceled: bool
    ghost var writes: seq<string>

    ghost function Abs(): Proc
      reads this
    {
      Proc(proposal, manifest, isprocessed, issaved, canceled, writes)
    }

    constructor (proposal: string)
      ensures Abs() == NewProc(proposal)
    {
      this.proposal := proposal;
      manifest, isprocessed, issaved, canceled := None, false, false, false;
      writes := [];
    }

    method Process(processed: Processed) returns (r: Result<Option<string>, Error>)
      modifies this
      ensures (Abs(), r) == ProcessProc(old(Abs()), processed)
    {
      if isprocessed {
        return Err(AlreadyProcessed);
      }
      if canceled {
        return Err(AlreadyCanceled);
      }
      match processed
      case Broken(_) => return Err(ProcessFailed);
      case Manifest(m) =>
        isprocessed := true;
        manifest := m;
        return Ok(m);
    }

    method Save(avp: Accept, writer: Writer) returns (r: Result<string, Error>)
      modifies this
      ensures (Abs(), r) == SaveProc(old(Abs()), avp, writer)
    {
      if issaved {
        return Err(AlreadySaved);
      }
      if canceled {
        return Err(AlreadyCanceled);
      }
      issaved := true;
      r := SaveBlock(avp, writer);
      canceled := true;
    }

    method SaveBlock(avp: Accept, writer: Writer) returns (r: Result<string, Error>)
      modifies this`writes
      ensures manifest != Some(avp.newBlock) ==> r == Err(NotProcessed) && writes == old(writes)
      ensures manifest == Some(avp.newBlock) && (writer.InitFails? || writer.AcceptFails?) ==>
                r == Err(WriterFailed) && writes == old(writes)
      ensures manifest == Some(avp.newBlock) && writer.SaveFails? ==>
                r == Err(WriterFailed) && writes == old(writes) + [avp.newBlock]
      ensures manifest == Some(avp.newBlock) && writer.Saves? ==>
                r == Ok(avp.newBlock) && writes == old(writes) + [avp.newBlock]
    {
      if manifest == None || manifest.value != avp.newBlock {
        return Err(NotProcessed);
      }
      if writer.InitFails? {
        return Err(WriterFailed);
      }
      if writer.AcceptFails? {
        return Err(WriterFailed);
      }
      writes := writes + [avp.newBlock];
      if writer.SaveFails? {
        return Err(WriterFailed);
      }
      return Ok(avp.newBlock);
    }

    method Cancel()
      modifies this
      ensures Abs() == CancelProc(old(Abs()))
    {
      canceled := true;
    }
  }

  // ---------------------------------------------------------------- one processor, runs

  datatype Call = CallProcess(processed: Processed) | CallSave(avp: Accept, writer: Writer) | CallCancel

  function StepProc(p: Proc, c: Call): Proc {
    match c
    case CallProcess(processed) => ProcessProc(p, processed).0
    case CallSave(avp, writer) => SaveProc(p, avp, writer).0
    case CallCancel => CancelProc(p)
  }

  function RunProc(p: Proc, cs: seq<Call>): Proc
    decreases cs
  {
    if cs == [] then p else RunProc(StepProc(p, cs[0]), cs[1..])
  }

  /** The writer saved at most one block, and it is the one of a successful Process. */
  ghost predicate ProcInv(p: Proc) {
    && (p.manifest.Some? ==> p.isprocessed)
    && (p.issaved ==> p.canceled)
    && (p.writes != [] ==> p.issaved && p.isprocessed && p.manifest == Some(p.writes[0]) && |p.writes| == 1)
  }

  lemma {:induction false} RunProcKeepsInv(p: Proc, cs: seq<Call>)
    requires ProcInv(p)
    ensures ProcInv(RunProc(p, cs))
    decreases cs
  {
    if cs != [] {
      RunProcKeepsInv(StepProc(p, cs[0]), cs[1..]);
    }
  }

  /** However a processor is called, its writer saves at most once, and only what Process made. */
  lemma WritesAtMostOnce(proposal: string, cs: seq<Call>)
    ensures var p := RunProc(NewProc(proposal), cs);
      |p.writes| <= 1 && forall w :: w in p.writes ==> p.isprocessed && p.manifest == Some(w)
  {
    RunProcKeepsInv(NewProc(proposal), cs);
  }

  // ---------------------------------------------------------------- one processor, when it succeeds

  ghost predicate OnlyProcess(cs: seq<Call>) {
    forall c :: c in cs ==> c.CallProcess?
  }

  /** A proposal is processed exactly once, unless it is cancelled or its operations fail; a failure changes nothing. */
  lemma ProcessedIff(p: Proc, processed: Processed)
    ensures var (p', r) := ProcessProc(p, processed);
      && (r.Ok? <==> !p.isprocessed && !p.canceled && processed.Manifest?)
      && (r.Ok? ==> r.value == processed.hash && p'.isprocessed)
      && (r.Err? ==> p' == p)
      && p'.proposal == p.proposal && p'.writes == p.writes && p'.issaved == p.issaved && p'.canceled == p.canceled
  {
  }

  /** Processing again, however often and with whatever outcome, changes nothing. */
  lemma {:induction false} ProcessedStays(p: Proc, cs: seq<Call>)
    requires p.isprocessed && OnlyProcess(cs)
    ensures RunProc(p, cs) == p
    decreases cs
  {
    if cs != [] {
      assert cs[0] in cs;
      ProcessedStays(StepProc(p, cs[0]), cs[1..]);
    }
  }

  /**
   * After a successful Process, a processor that is neither saved nor cancelled writes exactly if
   * the majority agreed on the block that was processed and the writer gets to its own save. Save
   * succeeds exactly if that does. Afterwards the processor is of no use any more.
   */
  lemma SavedIff(p: Proc, processed: Processed, cs: seq<Call>, avp: Accept, writer: Writer)
    requires !p.issaved && !p.canceled && ProcessProc(p, processed).1.Ok? && OnlyProcess(cs)
    ensures var made := ProcessProc(p, processed).1.value;
      var p1 := RunProc(ProcessProc(p, processed).0, cs);
      var (p2, r) := SaveProc(p1, avp, writer);
      var agreed := made == Some(avp.newBlock);
      && p2.writes == (if agreed && (writer.SaveFails? || writer.Saves?) then p.writes + [avp.newBlock] else p.writes)
      && (r.Ok? <==> agreed && writer.Saves?)
      && r == (if !agreed then Err(NotProcessed) else if writer.Saves? then Ok(avp.newBlock) else Err(WriterFailed))
      && (forall avp', writer' :: SaveProc(p2, avp', writer').1 == Err(AlreadySaved))
      && forall processed' :: ProcessProc(p2, processed').1 == Err(AlreadyProcessed)
  {
    ProcessedStays(ProcessProc(p, processed).0, cs);
  }

  /** Without a Process, or once cancelled, nothing is written. */
  lemma NotSaved(proposal: string, processed: Processed, avp: Accept, writer: Writer)
    ensures var p := NewProc(proposal);
      var c := CancelProc(ProcessProc(p, processed).0);
      && SaveProc(p, avp, writer).1 == Err(NotProcessed) && SaveProc(p, avp, writer).0.writes == []
      && SaveProc(c, avp, writer) == (c, Err(AlreadyCanceled)) && c.writes == []
      && ProcessProc(CancelProc(p), processed).1 == Err(AlreadyCanceled)
  {
  }

  // ---------------------------------------------------------------- all processors, specification

  datatype Write = Write(height: int, proposal: string, block: string)

  /**
   * `handed` are the heights for which a processor's Save was called, `written` the blocks for
   * which a writer's Save was called.
   */
  datatype State = State(p: Option<Proc>, previousSaved: int, handed: seq<int>, written: seq<Write>)

  const INITIAL := State(None, NIL_HEIGHT, [], [])

  /** What a call of Process meets: the proposal that is fetched, if any, and whether a processor can be made. */
  datatype Fetched = Fetched(proposal: Option<string>, made: bool)

  function RunProcessor(p: Proc, processed: Processed): Proc {
    var (p', r) := ProcessProc(p, processed);
    if r.Err? && !(r.error.ProcessFailed? && processed.Broken? && processed.ignored) then CancelProc(p') else p'
  }

  function ProcessSpec(s: State, facthash: string, fetched: Fetched, processed: Processed): State {
    if s.p.Some? && s.p.value.proposal == facthash then s
    else
      var canceled := s.(p := if s.p.Some? then Some(CancelProc(s.p.value)) else None);
      if fetched.proposal == None || !fetched.made then canceled
      else canceled.(p := Some(RunProcessor(NewProc(fetched.proposal.value), processed)))
  }

  function SaveSpec(s: State, facthash: string, avp: Accept, writer: Writer): (State, Result<string, Error>) {
    if avp.height <= s.previousSaved then (s.(p := None), Err(AlreadySaved))
    else if s.p == None || s.p.value.proposal != facthash then (s.(p := None), Err(NotProcessed))
    else
      var (p, r) := SaveProc(s.p.value, avp, writer);
      (State(None, avp.height, s.handed + [avp.height],
             if |p.writes| > |s.p.value.writes| then s.written + [Write(avp.height, facthash, avp.newBlock)]
             else s.written),
       r)
  }

  // ---------------------------------------------------------------- all processors, code

  class ProposalProcessors {
    var p: DefaultProposalProcessor?
    var previousSaved: int
    ghost var handed: seq<int>
    ghost var written: seq<Write>

    ghost function Abs(): State
      reads this, p
    {
      State(if p == null then None else Some(p.Abs()), previousSaved, handed, written)
    }

    constructor ()
      ensures Abs() == INITIAL
    {
      p, previousSaved := null, NIL_HEIGHT;
      handed, written := [], [];
    }

    method Process(facthash: string, fetched: Fetched, processed: Processed) returns (started: bool)
      modifies this, p
      ensures Abs() == ProcessSpec(old(Abs()), facthash, fetched, processed)
      ensures p == old(p) || (p != null && fresh(p))
      ensures started <==> (old(p) == null || old(p.proposal) != facthash) && fetched.proposal.Some? && fetched.made
    {
      if p != null {
        if p.proposal == facthash {
          return false;
        }
        p.Cancel();
      }
      if fetched.proposal == None {
        return false;
      }
      if !fetched.made {
        return false;
      }
      var made := new DefaultProposalProcessor(fetched.proposal.value);
      p := made;
      var r := made.Process(processed);
      if r.Err? {
        if r.error.ProcessFailed? && processed.Broken? && processed.ignored {
          return true;
        }
        made.Cancel();
      }
      return true;
    }

    method Save(facthash: string, avp: Accept, writer: Writer) returns (r: Result<string, Error>)
      modifies this, p
      ensures (Abs(), r) == SaveSpec(old(Abs()), facthash, avp, writer)
    {
      r := SaveProposal(facthash, avp, writer);
      if r.Err? {
        if p != null {
          p.Cancel();
          p := null;
        }
      } else if p != null {
        p := null;
      }
    }

    method SaveProposal(facthash: string, avp: Accept, writer: Writer) returns (r: Result<string, Error>)
      modifies this`previousSaved, this`handed, this`written, p
      ensures (Abs().(p := None), r) == SaveSpec(old(Abs()), facthash, avp, writer)
    {
      if avp.height <= previousSaved {
        return Err(AlreadySaved);
      }
      if p == null {
        return Err(NotProcessed);
      }
      if p.proposal != facthash {
        return Err(NotProcessed);
      }
      previousSaved := avp.height;
      handed := handed + [avp.height];
      ghost var before := p.writes;
      r := p.Save(avp, writer);
      if |p.writes| > |before| {
        written := written + [Write(avp.height, facthash, avp.newBlock)];
      }
    }

    method Cancel()
      modifies this, p
      ensures Abs() == old(Abs()).(p := None)
    {
      if p != null {
        p.Cancel();
      }
      p := null;
    }
  }

  // ---------------------------------------------------------------- all processors, runs

  datatype Event =
    | DoProcess(facthash: string, fetched: Fetched, processed: Processed)
    | DoSave(facthash: string, avp: Accept, writer: Writer)
    | DoCancel

  function Step(s: State, e: Event): State {
    match e
    case DoProcess(facthash, fetched, processed) => ProcessSpec(s, facthash, fetched, processed)
    case DoSave(facthash, avp, writer) => SaveSpec(s, facthash, avp, writer).0
    case DoCancel => s.(p := None)
  }

  function Run(s: State, es: seq<Event>): State
    decreases es
  {
    if es == [] then s else Run(Step(s, es[0]), es[1..])
  }

  predicate Increasing(hs: seq<int>) {
    forall i, j :: 0 <= i < j < |hs| ==> hs[i] < hs[j]
  }

  function Heights(ws: seq<Write>): (r: seq<int>)
    ensures |r| == |ws|
  {
    seq(|ws|, i requires 0 <= i < |ws| => ws[i].height)
  }

  /** Heights are handed over in increasing order, and blocks are written for those heights only. */
  ghost predicate Inv(s: State) {
    && Increasing(s.handed)
    && (forall h :: h in s.handed ==> h <= s.previousSaved)
    && Increasing(Heights(s.written))
    && (forall w :: w in s.written ==> w.height in s.handed)
    && (s.p.Some? ==> ProcInv(s.p.value) && s.p.value.writes == [])
  }

  /** A processor in the slot has not written anything yet. */
  lemma ProcessKeepsInv(s: State, facthash: string, fetched: Fetched, processed: Processed)
    requires Inv(s)
    ensures Inv(ProcessSpec(s, facthash, fetched, processed))
  {
  }

  lemma SaveKeepsInv(s: State, facthash: string, avp: Accept, writer: Writer)
    requires Inv(s)
    ensures Inv(SaveSpec(s, facthash, avp, writer).0)
  {
    var s' := SaveSpec(s, facthash, avp, writer).0;
    assert forall i :: 0 <= i < |s.handed| ==> s.handed[i] in s.handed;
    if s'.written != s.written {
      assert Heights(s'.written) == Heights(s.written) + [avp.height];
      forall i | 0 <= i < |s.written|
        ensures Heights(s.written)[i] < avp.height
      {
        assert s.written[i] in s.written;
      }
    }
  }

  /** What is written was processed before: the manifest is the new block of the ACCEPT majority. */
  lemma WrittenIsProcessed(s: State, facthash: string, avp: Accept, writer: Writer)
    requires Inv(s)
    ensures var s' := SaveSpec(s, facthash, avp, writer).0;
      s'.written != s.written ==>
        && avp.height > s.previousSaved
        && s.p.Some? && s.p.value.proposal == facthash
        && s.p.value.isprocessed && s.p.value.manifest == Some(avp.newBlock)
        && s'.written == s.written + [Write(avp.height, facthash, avp.newBlock)]
    ensures SaveSpec(s, facthash, avp, writer).1.Ok? ==> SaveSpec(s, facthash, avp, writer).0.written != s.written
  {
  }

  lemma {:induction false} RunKeepsInv(s: State, es: seq<Event>)
    requires Inv(s)
    ensures Inv(Run(s, es))
    ensures s.handed <= Run(s, es).handed && s.written <= Run(s, es).written
    ensures s.previousSaved <= Run(s, es).previousSaved
    decreases es
  {
    if es != [] {
      match es[0] {
        case DoProcess(facthash, fetched, processed) => ProcessKeepsInv(s, facthash, fetched, processed);
        case DoSave(facthash, avp, writer) => SaveKeepsInv(s, facthash, avp, writer);
        case DoCancel =>
      }
      RunKeepsInv(Step(s, es[0]), es[1..]);
    }
  }

  /** In every run heights are saved in increasing order, so no height is saved or written twice. */
  lemma OneSavePerHeight(es: seq<Event>)
    ensures Increasing(Run(INITIAL, es).handed)
    ensures Increasing(Heights(Run(INITIAL, es).written))
    ensures forall w, w' :: w in Run(INITIAL, es).written && w' in Run(INITIAL, es).written && w.height == w'.height ==>
                            w == w'
  {
    RunKeepsInv(INITIAL, es);
    var ws := Run(INITIAL, es).written;
    forall w, w' | w in ws && w' in ws && w.height == w'.height
      ensures w == w'
    {
      var i :| 0 <= i < |ws| && ws[i] == w;
      var j :| 0 <= j < |ws| && ws[j] == w';
      assert Heights(ws)[i] == Heights(ws)[j];
    }
  }

  // ---------------------------------------------------------------- when saving succeeds

  /** The current processor is for the proposal and has processed it to the block, and is not cancelled. */
  ghost predicate ReadyFor(s: State, facthash: string, block: string) {
    && s.p.Some? && s.p.value.proposal == facthash
    && s.p.value.isprocessed && s.p.value.manifest == Some(block) && !s.p.value.canceled
  }

  /**
   * Save succeeds exactly for a new height, if the current processor is ready for the block that
   * was agreed on and the writer saves it. The height is used up if the processor is for the
   * proposal. Afterwards there is no processor.
   */
  lemma SaveSucceedsIff(s: State, facthash: string, avp: Accept, writer: Writer)
    requires Inv(s)
    ensures var (s', r) := SaveSpec(s, facthash, avp, writer);
      var isNew, current := avp.height > s.previousSaved, s.p.Some? && s.p.value.proposal == facthash;
      && (r.Ok? <==> isNew && ReadyFor(s, facthash, avp.newBlock) && writer.Saves?)
      && (r.Ok? ==> r.value == avp.newBlock)
      && (!isNew ==> r == Err(AlreadySaved))
      && (isNew && !current ==> r == Err(NotProcessed))
      && s'.p == None
      && s'.previousSaved == (if isNew && current then avp.height else s.previousSaved)
      && s'.handed == (if isNew && current then s.handed + [avp.height] else s.handed)
      && s'.written ==
         if isNew && ReadyFor(s, facthash, avp.newBlock) && (writer.SaveFails? || writer.Saves?) then
           s.written + [Write(avp.height, facthash, avp.newBlock)]
         else s.written
  {
  }

  /** A call of Process for another proposal than the current one that gets a processor. */
  ghost predicate Starts(s: State, facthash: string, fetched: Fetched) {
    (s.p.Some? ==> s.p.value.proposal != facthash) && fetched.proposal == Some(facthash) && fetched.made
  }

  /** After Process has started, the processor is ready exactly for the block that it was processed to. */
  lemma StartedIsReady(s: State, facthash: string, fetched: Fetched, processed: Processed, block: string)
    requires Starts(s, facthash, fetched)
    ensures var s' := ProcessSpec(s, facthash, fetched, processed);
      && (ReadyFor(s', facthash, block) <==> processed == Manifest(Some(block)))
      && s'.previousSaved == s.previousSaved && s'.handed == s.handed && s'.written == s.written
      && s'.p.Some? && s'.p.value.proposal == facthash
      && (s'.p.value.canceled <==> processed.Broken? && !processed.ignored)
  {
  }

  /**
   * Process leaves the current processor alone if it is for the proposal. Otherwise the current one
   * is cancelled, and no block can be saved if no new one can be made.
   */
  lemma NotStarted(s: State, facthash: string, fetched: Fetched, processed: Processed, other: string, block: string)
    ensures s.p.Some? && s.p.value.proposal == facthash ==> ProcessSpec(s, facthash, fetched, processed) == s
    ensures (s.p == None || s.p.value.proposal != facthash) && (fetched.proposal == None || !fetched.made) ==>
              && !ReadyFor(ProcessSpec(s, facthash, fetched, processed), other, block)
              && (s.p.Some? <==> ProcessSpec(s, facthash, fetched, processed).p.Some?)
  {
  }

  /**
   * A proposal that is processed can be saved: after it was started, and whether or not it is
   * asked for again, Save succeeds exactly for a new height, that proposal and that block.
   */
  lemma ProcessedCanBeSaved(s: State, facthash: string, fetched: Fetched, processed: Processed,
                            again: seq<Event>, facthash': string, avp: Accept, writer: Writer)
    requires Inv(s) && Starts(s, facthash, fetched)
    requires forall e :: e in again ==> e.DoProcess? && e.facthash == facthash
    ensures var s1 := Run(Step(s, DoProcess(facthash, fetched, processed)), again);
      SaveSpec(s1, facthash', avp, writer).1.Ok? <==>
        && avp.height > s.previousSaved && facthash' == facthash
        && processed == Manifest(Some(avp.newBlock)) && writer.Saves?
  {
    var s1 := Step(s, DoProcess(facthash, fetched, processed));
    StartedIsReady(s, facthash, fetched, processed, avp.newBlock);
    AskedAgain(s1, facthash, again);
    ProcessKeepsInv(s, facthash, fetched, processed);
    SaveSucceedsIff(s1, facthash', avp, writer);
  }

  lemma {:induction false} AskedAgain(s: State, facthash: string, again: seq<Event>)
    requires s.p.Some? && s.p.value.proposal == facthash
    requires forall e :: e in again ==> e.DoProcess? && e.facthash == facthash
    ensures Run(s, again) == s
    decreases again
  {
    if again != [] {
      assert again[0] in again;
      AskedAgain(Step(s, again[0]), facthash, again[1..]);
    }
  }

  /** After a cancel no block can be saved. */
  lemma CanceledCannotBeSaved(s: State, facthash: string, avp: Accept, writer: Writer)
    ensures SaveSpec(Step(s, DoCancel), facthash, avp, writer).1.Err?
  {
  }

  /** A height that was handed over once is refused for the rest of the run, even if its save failed. */
  lemma NeverAgain(s: State, facthash: string, avp: Accept, writer: Writer,
                   es: seq<Event>, facthash': string, avp': Accept, writer': Writer)
    requires Inv(s) && SaveSpec(s, facthash, avp, writer).0.handed != s.handed
    requires avp'.height <= avp.height
    ensures SaveSpec(Run(SaveSpec(s, facthash, avp, writer).0, es), facthash', avp', writer').1 == Err(AlreadySaved)
  {
    SaveKeepsInv(s, facthash, avp, writer);
    RunKeepsInv(SaveSpec(s, facthash, avp, writer).0, es);
  }
}
