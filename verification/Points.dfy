/** Heights, rounds and stages of the consensus (base/point.go, base/stage.go). */
module Points {

  const NIL_HEIGHT := -1
  const GENESIS_HEIGHT := 0

  datatype Stage = UNKNOWN | INIT | ACCEPT {

    function Rank(): int {
      match this
      case UNKNOWN => 0
      case INIT => 1
      case ACCEPT => 3
    }

    predicate CanVote() {
      INIT? || ACCEPT?
    }
  }

  function CompareInt(a: int, b: int): int {
    if a > b then 1 else if a < b then -1 else 0
  }

  datatype Point = Point(h: int, r: nat) {

    function Compare(b: Point): int {
      if h != b.h then CompareInt(h, b.h) else CompareInt(r, b.r)
    }

    predicate IsValid() {
      h >= GENESIS_HEIGHT && (h == GENESIS_HEIGHT ==> r == 0)
    }
  }

  datatype StagePoint = StagePoint(point: Point, stage: Stage) {

    function Compare(b: StagePoint): int {
      var c := point.Compare(b.point);
      if c == 0 then CompareInt(stage.Rank(), b.stage.Rank()) else c
    }

    predicate IsZero() {
      point.h <= NIL_HEIGHT || !stage.CanVote()
    }
  }
}
