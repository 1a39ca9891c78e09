/** When a voteproof is new with respect to the last point (isaac/lastpoint.go). */
module LastPoints {
  import opened Wrappers
  import opened Points
  import opened VoteCounting
  import opened Voteproofs

  datatype LastPoint = LastPoint(at: StagePoint, isMajority: bool, isSuffrageConfirm: bool) {

    predicate Before(p: StagePoint, confirm: bool) {
      if at.IsZero() then true
      else if p.point.h != at.point.h then p.point.h > at.point.h
      else if p.point == at.point && CompareInt(p.stage.Rank(), at.stage.Rank()) >= 0 then
        BeforeSamePoint(p, confirm)
      else
        BeforeNotSamePoint(p, confirm)
    }

    predicate BeforeSamePoint(p: StagePoint, confirm: bool) {
      if confirm then !isSuffrageConfirm
      else if !isMajority then false
      else if p.stage == at.stage then false
      else true
    }

    predicate BeforeNotSamePoint(p: StagePoint, confirm: bool) {
      if isMajority && CompareInt(p.stage.Rank(), at.stage.Rank()) < 0 then false
      else if p.Compare(at) > 0 then true
      else if confirm && !isMajority then true
      else false
    }
  }

  /** A suffrage confirm comes from the INIT stage only. */
  function NewLastPoint(p: StagePoint, isMajority: bool, confirm: bool): Option<LastPoint> {
    if confirm && p.stage != INIT then None else Some(LastPoint(p, isMajority, confirm))
  }

  predicate IsConfirm(vp: Voteproof) {
    vp.majority.Some? && vp.majority.value.isSuffrageConfirm
  }

  function FromVoteproof(vp: Voteproof): Option<LastPoint> {
    NewLastPoint(vp.point, vp.result == Majority, IsConfirm(vp))
  }

  predicate IsNewVoteproofByPoint(last: LastPoint, p: StagePoint, isMajority: bool, confirm: bool) {
    if last.Before(p, confirm) then true
    else
      !last.isMajority && isMajority && p.point == last.at.point &&
      CompareInt(p.stage.Rank(), last.at.stage.Rank()) >= 0
  }

  predicate IsNewVoteproof(last: LastPoint, vp: Voteproof) {
    IsNewVoteproofByPoint(last, vp.point, vp.result == Majority, IsConfirm(vp))
  }

  // ---------------------------------------------------------------- the order behind it

  /** Lexicographic order on (height, round, stage, isMajority, isSuffrageConfirm). */
  predicate Raises(a: LastPoint, b: LastPoint) {
    if a.at.point.h != b.at.point.h then a.at.point.h < b.at.point.h
    else if a.at.point.r != b.at.point.r then a.at.point.r < b.at.point.r
    else if a.at.stage != b.at.stage then a.at.stage.Rank() < b.at.stage.Rank()
    else if a.isMajority != b.isMajority then b.isMajority
    else !a.isSuffrageConfirm && b.isSuffrageConfirm
  }

  lemma RaisesIsStrictOrder(a: LastPoint, b: LastPoint, c: LastPoint)
    ensures !Raises(a, a)
    ensures a == b || Raises(a, b) || Raises(b, a)
    ensures Raises(a, b) && Raises(b, c) ==> Raises(a, c)
  {
  }

  /** A suffrage confirm that may go back within the height of a last point without majority. */
  predicate ConfirmsDraw(last: LastPoint, next: LastPoint) {
    && next.isSuffrageConfirm
    && !last.isMajority
    && next.at.point.h == last.at.point.h
  }

  /**
   * A raise, except that after a majority a lower stage has to wait for the next height and after
   * a draw the later stages of the same round need a majority of their own; or a suffrage confirm
   * within a draw's height.
   */
  predicate Follows(last: LastPoint, next: LastPoint) {
    || next.at.point.h > last.at.point.h
    || (next.at.point.h == last.at.point.h && Raises(last, next)
        && (if last.isMajority then next.at.stage.Rank() >= last.at.stage.Rank()
            else next.at.point.r > last.at.point.r || next.isMajority))
    || ConfirmsDraw(last, next)
  }

  /** What is accepted after a non-zero last point raises it, or confirms within a draw's height. */
  lemma AcceptedRaises(last: LastPoint, next: LastPoint)
    requires !last.at.IsZero()
    requires next.isSuffrageConfirm ==> next.isMajority
    requires IsNewVoteproofByPoint(last, next.at, next.isMajority, next.isSuffrageConfirm)
    ensures Raises(last, next) || ConfirmsDraw(last, next)
    ensures next.at.point.h >= last.at.point.h
  {
  }

  /** Exactly what is accepted after a non-zero last point. */
  lemma AcceptedIff(last: LastPoint, next: LastPoint)
    requires !last.at.IsZero()
    requires last.isSuffrageConfirm ==> last.isMajority && last.at.stage == INIT
    requires next.isSuffrageConfirm ==> next.isMajority && next.at.stage == INIT
    ensures IsNewVoteproofByPoint(last, next.at, next.isMajority, next.isSuffrageConfirm) <==> Follows(last, next)
  {
  }

  /** A voteproof has no last point exactly if it confirms a suffrage at another stage than INIT. */
  lemma LastPointIff(vp: Voteproof)
    ensures FromVoteproof(vp) == None <==>
              vp.majority.Some? && vp.majority.value.isSuffrageConfirm && vp.point.stage != INIT
    ensures FromVoteproof(vp).Some? ==>
              FromVoteproof(vp).value == LastPoint(vp.point, vp.result == Majority, IsConfirm(vp))
  {
  }

  /** After a zero last point everything is new. */
  lemma ZeroAcceptsAll(last: LastPoint, p: StagePoint, isMajority: bool, confirm: bool)
    requires last.at.point.h <= NIL_HEIGHT || last.at.stage == UNKNOWN
    ensures IsNewVoteproofByPoint(last, p, isMajority, confirm)
  {
  }

  /** The voteproof behind the last point is never new again. */
  lemma ReplayRejected(vp: Voteproof)
    requires FromVoteproof(vp).Some? && !vp.point.IsZero()
    ensures !IsNewVoteproof(FromVoteproof(vp).value, vp)
  {
  }

  /** Two points follow each other both ways only where a suffrage confirm goes back within the height. */
  lemma NoWayBack(a: LastPoint, b: LastPoint)
    requires !a.at.IsZero() && !b.at.IsZero()
    requires a.isSuffrageConfirm ==> a.isMajority
    requires b.isSuffrageConfirm ==> b.isMajority
    requires IsNewVoteproofByPoint(a, b.at, b.isMajority, b.isSuffrageConfirm)
    requires IsNewVoteproofByPoint(b, a.at, a.isMajority, a.isSuffrageConfirm)
    ensures a.at.point.h == b.at.point.h
    ensures (a.isSuffrageConfirm && !b.isMajority) || (b.isSuffrageConfirm && !a.isMajority)
  {
  }
}
