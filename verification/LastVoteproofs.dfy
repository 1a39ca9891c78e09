/** The last voteproofs of a node and how they move (isaac/last_voteproofs.go). */
module LastVoteproofs {
  import opened Wrappers
  import opened Points
  import opened VoteCounting
  import opened Voteproofs
  import opened LastPoints

  // ---------------------------------------------------------------- state

  datatype LastVoteproofs = LastVoteproofs(
    ivp: Option<Voteproof>, avp: Option<Voteproof>, mvp: Option<Voteproof>)
  {
    function Cap(): Option<Voteproof> {
      if ivp == None then avp
      else if avp == None then ivp
      else if avp.value.point.point.Compare(ivp.value.point.point) < 0 then ivp
      else avp
    }

    predicate IsNew(vp: Voteproof) {
      Cap().None? || (FromVoteproof(Cap().value).Some? && IsNewVoteproof(FromVoteproof(Cap().value).value, vp))
    }

    /** The block that the next round after the draw `vp` builds on, from the last majority. */
    function PreviousBlockForNextRound(vp: Voteproof): Option<string> {
      if mvp == None || mvp.value.majority == None then None
      else
        var m := mvp.value;
        match m.point.stage
        case INIT => if m.point.point.h != vp.point.point.h then None else Some(m.majority.value.block)
        case ACCEPT => if m.point.point.h != vp.point.point.h - 1 then None else Some(m.majority.value.block)
        case UNKNOWN => None
    }

    /** The slots hold voteproofs of their stage. */
    predicate Typed() {
      && (ivp.Some? ==> ivp.value.point.stage == INIT)
      && (avp.Some? ==> avp.value.point.stage == ACCEPT)
    }
  }

  const EMPTY := LastVoteproofs(None, None, None)

  /** The handler's fields; the cache maps the point of a voteproof to the last voteproofs before it. */
  datatype State = State(last: LastVoteproofs, cache: map<StagePoint, LastVoteproofs>)

  const INITIAL := State(EMPTY, map[])

  // ---------------------------------------------------------------- specification of the steps

  /** The LRU cache may drop any entries (`evicted`) to make room for a new one. */
  function Cached(cache: map<StagePoint, LastVoteproofs>, at: StagePoint, l: LastVoteproofs, evicted: set<StagePoint>)
    : map<StagePoint, LastVoteproofs>
  {
    (cache - evicted)[at := l]
  }

  /** A voteproof that may be looked at at all. */
  predicate Eligible(l: LastVoteproofs, vp: Voteproof) {
    && (l.ivp == None && l.avp == None ==> vp.point.stage == INIT && vp.majority.Some?)
    && (l.ivp.Some? && l.avp == None ==> l.ivp.value.point.point == vp.point.point)
    && (l.Cap().Some? ==> FromVoteproof(l.Cap().value).Some?)
  }

  function Placed(l: LastVoteproofs, vp: Voteproof): LastVoteproofs {
    var placed := if vp.point.stage == INIT then l.(ivp := Some(vp)) else l.(avp := Some(vp));
    if vp.result == Majority then placed.(mvp := Some(vp)) else placed
  }

  function SetSpec(s: State, vp: Voteproof, evicted: set<StagePoint>): (State, bool) {
    if !Eligible(s.last, vp) then (s, false)
    else if !s.last.IsNew(vp) then FillSpec(s, vp, evicted)
    else if !vp.point.stage.CanVote() then (s, false)
    else
      (State(Placed(s.last, vp),
             if s.last.Cap().Some? then Cached(s.cache, vp.point, s.last, evicted) else s.cache),
       true)
  }

  function CachedBefore(s: State, at: StagePoint): LastVoteproofs {
    if at in s.cache then s.cache[at] else EMPTY
  }

  function FillSpec(s: State, vp: Voteproof, evicted: set<StagePoint>): (State, bool)
    requires s.last.Cap().Some?
  {
    var lp := s.last.Cap().value.point;
    var cached := CachedBefore(s, lp);
    var fillsInit := cached.ivp == None && lp.stage == ACCEPT && vp.point.stage == INIT && lp.point == vp.point.point;
    var fillsAccept :=
      cached.avp == None && lp.stage == INIT && vp.point.stage == ACCEPT && lp.point.h == vp.point.point.h + 1;
    if !fillsInit && !fillsAccept then (s, false)
    else
      var c := if fillsInit then cached.(ivp := Some(vp)) else cached.(avp := Some(vp));
      var c' := if c.mvp == None && vp.result == Majority then c.(mvp := Some(vp)) else c;
      var last :=
        if fillsInit && s.last.ivp == None then s.last.(ivp := Some(vp))
        else if fillsAccept && s.last.avp == None then s.last.(avp := Some(vp))
        else s.last;
      (State(last, Cached(s.cache, lp, c', evicted)), true)
  }

  function ForceSpec(s: State, vp: Voteproof, evicted: set<StagePoint>): State {
    var l := s.last;
    var l1 :=
      if vp.point.stage == INIT then
        if l.avp.Some? && l.avp.value.point.point.Compare(vp.point.point) >= 0 then
          LastVoteproofs(Some(vp), None, None)
        else
          l.(ivp := Some(vp))
      else if vp.point.stage == ACCEPT then
        if l.ivp.Some? && l.ivp.value.point.point.Compare(vp.point.point) > 0 then
          LastVoteproofs(None, Some(vp), None)
        else
          l.(avp := Some(vp))
      else l;
    State(if vp.result == Majority then l1.(mvp := Some(vp)) else l1,
          if l.Cap().Some? then Cached(s.cache, vp.point, l, evicted) else s.cache)
  }

  // ---------------------------------------------------------------- the handler

  class LastVoteproofsHandler {
    var last: LastVoteproofs
    var cache: map<StagePoint, LastVoteproofs>

    function Abs(): State
      reads this
    {
      State(last, cache)
    }

    constructor ()
      ensures Abs() == INITIAL
    {
      last, cache := EMPTY, map[];
    }

    method CacheSet(at: StagePoint, l: LastVoteproofs, evicted: set<StagePoint>)
      modifies this`cache
      ensures cache == Cached(old(cache), at, l, evicted)
    {
      cache := (cache - evicted)[at := l];
    }

    method Set(vp: Voteproof, evicted: set<StagePoint>) returns (ok: bool)
      modifies this
      ensures (Abs(), ok) == SetSpec(old(Abs()), vp, evicted)
    {
      var lvps := last;
      if lvps.ivp == None && lvps.avp == None {
        if vp.point.stage != INIT || vp.majority == None {
          return false;
        }
      }
      var lvp := lvps.Cap();
      if lvps.ivp.Some? && lvps.avp == None {
        if lvp.Some? {
          if lvp.value.point.point != vp.point.point {
            return false;
          }
        }
      }
      if lvp.Some? {
        var lp := FromVoteproof(lvp.value);
        if lp == None {
          return false;
        }
        if !IsNewVoteproof(lp.value, vp) {
          ok := FillMissing(lvp.value, vp, evicted);
          return;
        }
      }
      match vp.point.stage {
        case INIT => last := last.(ivp := Some(vp));
        case ACCEPT => last := last.(avp := Some(vp));
        case UNKNOWN => return false;
      }
      if vp.result == Majority {
        last := last.(mvp := Some(vp));
      }
      if lvps.Cap().Some? {
        CacheSet(vp.point, lvps, evicted);
      }
      return true;
    }

    method FillMissing(lvp: Voteproof, vp: Voteproof, evicted: set<StagePoint>) returns (ok: bool)
      requires last.Cap() == Some(lvp)
      modifies this
      ensures (Abs(), ok) == FillSpec(old(Abs()), vp, evicted)
    {
      var cached := EMPTY;
      if lvp.point in cache {
        cached := cache[lvp.point];
      }
      var filled := false;
      var lp := lvp.point;
      if cached.ivp == None && lp.stage == ACCEPT && vp.point.stage == INIT && lp.point == vp.point.point {
        filled := true;
        cached := cached.(ivp := Some(vp));
        if last.ivp == None {
          last := last.(ivp := Some(vp));
        }
      }
      if cached.avp == None && lp.stage == INIT && vp.point.stage == ACCEPT && lp.point.h == vp.point.point.h + 1 {
        filled := true;
        cached := cached.(avp := Some(vp));
        if last.avp == None {
          last := last.(avp := Some(vp));
        }
      }
      if !filled {
        return false;
      }
      if cached.mvp == None && vp.result == Majority {
        cached := cached.(mvp := Some(vp));
      }
      CacheSet(lp, cached, evicted);
      return true;
    }

    method ForceSetLast(vp: Voteproof, evicted: set<StagePoint>) returns (ok: bool)
      modifies this
      ensures ok && Abs() == ForceSpec(old(Abs()), vp, evicted)
    {
      var lvps := last;
      match vp.point.stage {
        case INIT =>
          last := last.(ivp := Some(vp));
          if last.avp.Some? && last.avp.value.point.point.Compare(vp.point.point) >= 0 {
            last := last.(avp := None);
            last := last.(mvp := None);
          }
        case ACCEPT =>
          last := last.(avp := Some(vp));
          if last.ivp.Some? && last.ivp.value.point.point.Compare(vp.point.point) > 0 {
            last := last.(ivp := None);
            last := last.(mvp := None);
          }
        case UNKNOWN =>
      }
      if vp.result == Majority {
        last := last.(mvp := Some(vp));
      }
      if lvps.Cap().Some? {
        CacheSet(vp.point, lvps, evicted);
      }
      return true;
    }
  }

  // ---------------------------------------------------------------- invariant

  /** A finished, valid voteproof as far as the handler looks at it. */
  predicate Sound(vp: Voteproof) {
    && !vp.point.IsZero()
    && vp.result != NotYet
    && (vp.result == Majority <==> vp.majority.Some?)
    && (IsConfirm(vp) ==> vp.point.stage == INIT)
  }

  function LP(vp: Voteproof): LastPoint {
    LastPoint(vp.point, vp.result == Majority, IsConfirm(vp))
  }

  ghost predicate Inv(l: LastVoteproofs) {
    && l.Typed()
    && (l.avp.Some? ==> Sound(l.avp.value) && l.ivp.Some?)
    && (l.ivp.Some? ==> Sound(l.ivp.value) && l.mvp.Some?)
    && (l.mvp.Some? ==>
          && l.mvp.value.result == Majority
          && l.Cap().Some?
          && l.mvp.value.point.point.h <= l.Cap().value.point.point.h)
  }

  // ---------------------------------------------------------------- what changes and what stays

  /** The slot for voteproofs of a stage. */
  function Slot(l: LastVoteproofs, stage: Stage): Option<Voteproof> {
    match stage
    case INIT => l.ivp
    case ACCEPT => l.avp
    case UNKNOWN => None
  }

  function OtherStage(stage: Stage): Stage {
    match stage
    case INIT => ACCEPT
    case ACCEPT => INIT
    case UNKNOWN => UNKNOWN
  }

  /** The entry at a point is there; every other one is as before, unless it was evicted. */
  ghost predicate EntryAdded(cache: map<StagePoint, LastVoteproofs>, cache': map<StagePoint, LastVoteproofs>,
                             at: StagePoint, evicted: set<StagePoint>) {
    && at in cache'
    && forall p :: p != at ==>
         && (p in cache' <==> p in cache && p !in evicted)
         && (p in cache' ==> cache'[p] == cache[p])
  }

  /** What is refused changes nothing. */
  lemma RefusedChangesNothing(s: State, vp: Voteproof, evicted: set<StagePoint>)
    requires !SetSpec(s, vp, evicted).1
    ensures SetSpec(s, vp, evicted).0 == s
  {
  }

  /**
   * A new voteproof, confirms included, goes into the slot of its stage and leaves the other one
   * alone. The majority slot changes exactly for majorities. What was there before is remembered.
   */
  lemma SetFrame(s: State, vp: Voteproof, evicted: set<StagePoint>)
    requires s.last.IsNew(vp) && SetSpec(s, vp, evicted).1
    ensures var s' := SetSpec(s, vp, evicted).0;
      && vp.point.stage.CanVote()
      && Slot(s'.last, vp.point.stage) == Some(vp)
      && Slot(s'.last, OtherStage(vp.point.stage)) == Slot(s.last, OtherStage(vp.point.stage))
      && s'.last.mvp == (if vp.result == Majority then Some(vp) else s.last.mvp)
      && (if s.last.Cap().Some? then
            EntryAdded(s.cache, s'.cache, vp.point, evicted) && s'.cache[vp.point] == s.last
          else s'.cache == s.cache)
  {
  }

  /** Filling succeeds exactly for a gap. It goes into the entry of the cap, and into an empty slot of its stage. */
  lemma FillFrame(s: State, vp: Voteproof, evicted: set<StagePoint>)
    requires s.last.Cap().Some?
    ensures FillSpec(s, vp, evicted).1 <==> Gap(s, vp)
    ensures Gap(s, vp) ==>
      var s', at := FillSpec(s, vp, evicted).0, s.last.Cap().value.point;
      var before, after := CachedBefore(s, at), CachedBefore(s', at);
      var other := OtherStage(vp.point.stage);
      && EntryAdded(s.cache, s'.cache, at, evicted)
      && Slot(after, vp.point.stage) == Some(vp) && Slot(after, other) == Slot(before, other)
      && after.mvp == (if before.mvp == None && vp.result == Majority then Some(vp) else before.mvp)
      && Slot(s'.last, other) == Slot(s.last, other) && s'.last.mvp == s.last.mvp
      && Slot(s'.last, vp.point.stage) ==
         (if Slot(s.last, vp.point.stage) == None then Some(vp) else Slot(s.last, vp.point.stage))
  {
  }

  /** Does the voteproof in the slot of the other stage contradict `vp` being the last one? */
  predicate Ahead(held: Option<Voteproof>, vp: Voteproof) {
    held.Some? && if held.value.point.point == vp.point.point then vp.point.stage == INIT
                  else !Earlier(held.value.point.point, vp.point.point)
  }

  predicate Earlier(a: Point, b: Point) {
    a.h < b.h || (a.h == b.h && a.r < b.r)
  }

  /**
   * Setting by force fills the slot of its stage. The other slot and the majority are dropped
   * exactly if the other slot is ahead, and otherwise kept, but for the majority of `vp` itself.
   */
  lemma ForceFrame(s: State, vp: Voteproof, evicted: set<StagePoint>)
    requires vp.point.stage.CanVote()
    ensures var s', other := ForceSpec(s, vp, evicted), OtherStage(vp.point.stage);
      var drops := Ahead(Slot(s.last, other), vp);
      && Slot(s'.last, vp.point.stage) == Some(vp)
      && Slot(s'.last, other) == (if drops then None else Slot(s.last, other))
      && s'.last.mvp == (if vp.result == Majority then Some(vp) else if drops then None else s.last.mvp)
      && (if s.last.Cap().Some? then
            EntryAdded(s.cache, s'.cache, vp.point, evicted) && s'.cache[vp.point] == s.last
          else s'.cache == s.cache)
  {
  }

  // ---------------------------------------------------------------- the cap

  /** A new voteproof becomes the cap, and raises it; suffrage confirms aside. */
  lemma MainPathRaises(s: State, vp: Voteproof, evicted: set<StagePoint>)
    requires Inv(s.last) && Sound(vp) && !IsConfirm(vp)
    requires s.last.IsNew(vp) && SetSpec(s, vp, evicted).1
    ensures var s' := SetSpec(s, vp, evicted).0;
      && s'.last.Cap() == Some(vp)
      && (s.last.Cap().Some? ==> Raises(LP(s.last.Cap().value), LP(vp)))
      && (vp.result == Majority ==> s'.last.mvp == Some(vp))
      && (vp.result != Majority ==> s'.last.mvp == s.last.mvp)
  {
    if s.last.Cap().Some? {
      AcceptedRaises(LP(s.last.Cap().value), LP(vp));
    }
  }

  /**
   * Suffrage confirms included, what the main path accepts becomes the cap, unless an ACCEPT
   * voteproof is already at its point or beyond: then it is a confirm within a draw's height
   * and the ACCEPT voteproof stays the cap.
   */
  lemma MainPathCap(s: State, vp: Voteproof, evicted: set<StagePoint>)
    requires Inv(s.last) && Sound(vp)
    requires s.last.IsNew(vp) && SetSpec(s, vp, evicted).1
    ensures var behind := vp.point.stage == INIT && s.last.avp.Some?
                          && s.last.avp.value.point.point.Compare(vp.point.point) >= 0;
      && SetSpec(s, vp, evicted).0.last.Cap() == (if behind then s.last.avp else Some(vp))
      && (behind ==> IsConfirm(vp) && ConfirmsDraw(LP(s.last.Cap().value), LP(vp)))
  {
    if s.last.Cap().Some? {
      AcceptedRaises(LP(s.last.Cap().value), LP(vp));
    }
  }

  /** Filling a gap leaves the cap alone, whatever state it starts from. */
  lemma FillKeepsCap(s: State, vp: Voteproof, evicted: set<StagePoint>)
    requires s.last.Typed() && s.last.Cap().Some?
    ensures FillSpec(s, vp, evicted).0.last.Cap() == s.last.Cap()
  {
  }

  /**
   * In runs of Set no gap of `last` itself is ever filled, only gaps of the cache: INIT comes
   * first, and next to a lone INIT voteproof only its own point is eligible.
   */
  lemma FillOnlyCaches(s: State, vp: Voteproof, evicted: set<StagePoint>)
    requires Inv(s.last) && Eligible(s.last, vp) && !s.last.IsNew(vp)
    ensures SetSpec(s, vp, evicted).0.last == s.last
  {
  }

  /** The cap is at ACCEPT and the cache misses the INIT voteproof of its point, or the other way round. */
  predicate Gap(s: State, vp: Voteproof)
    requires s.last.Cap().Some?
  {
    var at, cached := s.last.Cap().value.point, CachedBefore(s, s.last.Cap().value.point);
    || (at.stage == ACCEPT && vp.point.stage == INIT && at.point == vp.point.point && cached.ivp == None)
    || (at.stage == INIT && vp.point.stage == ACCEPT && at.point.h == vp.point.point.h + 1 && cached.avp == None)
  }

  /**
   * When Set succeeds: first with an INIT majority, then with what follows at the point of that
   * INIT voteproof, and once there is an ACCEPT voteproof with whatever follows the cap or is a gap.
   */
  lemma SetSucceedsIff(s: State, vp: Voteproof, evicted: set<StagePoint>)
    requires Inv(s.last) && Sound(vp)
    ensures SetSpec(s, vp, evicted).1 <==>
              if s.last.ivp == None then vp.point.stage == INIT && vp.result == Majority
              else if s.last.avp == None then
                vp.point.point == s.last.ivp.value.point.point && Follows(LP(s.last.ivp.value), LP(vp))
              else Follows(LP(s.last.Cap().value), LP(vp)) || Gap(s, vp)
  {
    if s.last.Cap().Some? {
      AcceptedIff(LP(s.last.Cap().value), LP(vp));
    }
  }

  /** A new handler refuses every ACCEPT voteproof. */
  lemma AcceptFirstRefused(vp: Voteproof, evicted: set<StagePoint>)
    requires Sound(vp) && vp.point.stage == ACCEPT
    ensures SetSpec(INITIAL, vp, evicted) == (INITIAL, false)
  {
    SetSucceedsIff(INITIAL, vp, evicted);
  }

  /** Behind the first INIT voteproof, the ACCEPT voteproof of the height before is refused. */
  lemma PreviousAcceptRefused(ivp: Voteproof, avp: Voteproof, evicted: set<StagePoint>, evicted': set<StagePoint>)
    requires Sound(ivp) && ivp.point.stage == INIT && ivp.result == Majority
    requires Sound(avp) && avp.point.stage == ACCEPT && avp.point.point.h + 1 == ivp.point.point.h
    ensures var (s, ok) := SetSpec(INITIAL, ivp, evicted);
      ok && SetSpec(s, avp, evicted') == (s, false)
  {
    SetSucceedsIff(INITIAL, ivp, evicted);
    StepKeepsInv(INITIAL, ivp, evicted);
    SetSucceedsIff(SetSpec(INITIAL, ivp, evicted).0, avp, evicted');
  }

  lemma StepKeepsInv(s: State, vp: Voteproof, evicted: set<StagePoint>)
    requires Inv(s.last) && Sound(vp)
    ensures var s' := SetSpec(s, vp, evicted).0;
      && Inv(s'.last)
      && (s.last.Cap().Some? ==>
            s'.last.Cap().Some? && s'.last.Cap().value.point.point.h >= s.last.Cap().value.point.point.h)
  {
    if Eligible(s.last, vp) && s.last.IsNew(vp) && s.last.Cap().Some? {
      AcceptedRaises(LP(s.last.Cap().value), LP(vp));
    } else if Eligible(s.last, vp) && !s.last.IsNew(vp) {
      FillOnlyCaches(s, vp, evicted);
    }
  }

  lemma ForceSetsCap(s: State, vp: Voteproof, evicted: set<StagePoint>)
    requires vp.point.stage.CanVote()
    ensures ForceSpec(s, vp, evicted).last.Cap() == Some(vp)
  {
  }

  /** A voteproof that was placed remembers the last voteproofs before it; other entries stay or go. */
  lemma CacheRemembers(s: State, vp: Voteproof, evicted: set<StagePoint>)
    requires Inv(s.last) && s.last.Cap().Some? && s.last.IsNew(vp) && SetSpec(s, vp, evicted).1
    ensures var s' := SetSpec(s, vp, evicted).0;
      && CachedBefore(s', vp.point) == s.last
      && forall at :: at in s'.cache && at != vp.point ==> at in s.cache && s'.cache[at] == s.cache[at]
  {
  }

  /** A gap is filled once: afterwards no voteproof of that stage fills it again. */
  lemma FillOnce(s: State, vp: Voteproof, evicted: set<StagePoint>, again: Voteproof, evicted': set<StagePoint>)
    requires s.last.Typed() && s.last.Cap().Some? && FillSpec(s, vp, evicted).1
    requires again.point.stage == vp.point.stage
    ensures var s' := FillSpec(s, vp, evicted).0;
      && s'.last.Cap() == s.last.Cap()
      && FillSpec(s', again, evicted') == (s', false)
  {
    FillKeepsCap(s, vp, evicted);
  }

  /** The facts of a voteproof are about a chain of blocks by height. */
  ghost predicate OnChain(vp: Voteproof, chain: int -> string) {
    vp.majority.Some? ==>
      vp.majority.value.block == chain(if vp.point.stage == INIT then vp.point.point.h - 1 else vp.point.point.h)
  }

  /** The answer is the block before the height of `vp`, given exactly for a majority that knows it. */
  lemma PreviousBlockIsParent(l: LastVoteproofs, vp: Voteproof, chain: int -> string)
    requires Inv(l) && l.mvp.Some? && Sound(l.mvp.value) && OnChain(l.mvp.value, chain)
    ensures l.PreviousBlockForNextRound(vp).Some? <==>
              l.mvp.value.point.point.h == vp.point.point.h - (if l.mvp.value.point.stage == INIT then 0 else 1)
    ensures l.PreviousBlockForNextRound(vp).Some? ==>
              l.PreviousBlockForNextRound(vp) == Some(chain(vp.point.point.h - 1))
  {
  }

  // ---------------------------------------------------------------- runs

  datatype Input = Input(vp: Voteproof, evicted: set<StagePoint>)

  function Run(s: State, xs: seq<Input>): State
    decreases xs
  {
    if xs == [] then s else Run(SetSpec(s, xs[0].vp, xs[0].evicted).0, xs[1..])
  }

  ghost predicate AllSound(xs: seq<Input>) {
    forall x :: x in xs ==> Sound(x.vp)
  }

  ghost predicate NoConfirms(xs: seq<Input>) {
    forall x :: x in xs ==> !IsConfirm(x.vp)
  }

  /** The invariant holds after every run, and the cap's height never goes down. */
  lemma {:induction false} RunKeepsInv(s: State, xs: seq<Input>)
    requires Inv(s.last) && AllSound(xs)
    ensures Inv(Run(s, xs).last)
    ensures s.last.Cap().Some? ==>
              && Run(s, xs).last.Cap().Some?
              && Run(s, xs).last.Cap().value.point.point.h >= s.last.Cap().value.point.point.h
    decreases xs
  {
    if xs != [] {
      StepKeepsInv(s, xs[0].vp, xs[0].evicted);
      RunKeepsInv(SetSpec(s, xs[0].vp, xs[0].evicted).0, xs[1..]);
    }
  }

  lemma RunFromEmpty(xs: seq<Input>)
    requires AllSound(xs)
    ensures Inv(Run(INITIAL, xs).last)
  {
    RunKeepsInv(INITIAL, xs);
  }

  /** Without suffrage confirms the cap only ever stays or rises. */
  lemma {:induction false} RunRaises(s: State, xs: seq<Input>)
    requires Inv(s.last) && AllSound(xs) && NoConfirms(xs)
    requires s.last.Cap().Some?
    ensures var c, c' := s.last.Cap(), Run(s, xs).last.Cap();
      c'.Some? && (c' == c || Raises(LP(c.value), LP(c'.value)))
    decreases xs
  {
    if xs != [] {
      var vp, evicted := xs[0].vp, xs[0].evicted;
      var s' := SetSpec(s, vp, evicted).0;
      StepKeepsInv(s, vp, evicted);
      if Eligible(s.last, vp) && s.last.IsNew(vp) {
        MainPathRaises(s, vp, evicted);
      } else if Eligible(s.last, vp) {
        FillKeepsCap(s, vp, evicted);
      }
      RunRaises(s', xs[1..]);
    }
  }

  /** A voteproof that was the cap is not new again for the rest of such a run. */
  lemma NeverNewAgain(s: State, xs: seq<Input>)
    requires Inv(s.last) && AllSound(xs) && NoConfirms(xs)
    requires s.last.Cap().Some? && !IsConfirm(s.last.Cap().value)
    ensures !Run(s, xs).last.IsNew(s.last.Cap().value)
  {
    var vp := s.last.Cap().value;
    RunRaises(s, xs);
    RunKeepsInv(s, xs);
    var c := Run(s, xs).last.Cap().value;
    if Run(s, xs).last.IsNew(vp) {
      AcceptedRaises(LP(c), LP(vp));
      RaisesIsStrictOrder(LP(vp), LP(c), LP(vp));
      ReplayRejected(vp);
    }
  }
}
