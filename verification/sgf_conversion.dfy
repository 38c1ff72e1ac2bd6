/** The projection of the gibson library's GIB record onto SGF properties
    (SgfConversion.kt): root properties, game info, the handicap stones on
    their star points, the time settings, then the moves. */
module SgfConversion {
  import opened Wrappers
  import opened Decimal
  import opened Sgf
  import Gibson
  import Text

  function ToSgfColor(c: Gibson.GibColor): (r: SgfColor)
    ensures r == Black <==> c == Gibson.Black
  {
    match c
    case Black => Black
    case White => White
  }

  function FromSgfColor(c: SgfColor): (r: Gibson.GibColor)
    ensures ToSgfColor(r) == c
  {
    match c
    case Black => Gibson.Black
    case White => Gibson.White
  }

  // ---------------------------------------------------------------------------
  // Handicap

  /** A star point of the 19x19 board, on the fourth line, the tenth line or
      the sixteenth line in both directions. */
  predicate IsStarPoint(p: SgfPoint) {
    (p.x == 4 || p.x == 10 || p.x == 16) && (p.y == 4 || p.y == 10 || p.y == 16)
  }

  const Center := SgfPoint(10, 10)

  /** The fixed placement of 2 to 9 handicap stones; no stones for any other
      count. Each count adds to a smaller placement: 5, 7 and 9 put a stone
      on the centre, 6 and 8 put two on the sides instead. */
  function HandicapPoints(stones: Int32): (r: set<SgfPoint>)
    ensures forall p :: p in r ==> IsStarPoint(p)
  {
    match stones
    case 2 => {SgfPoint(4, 16), SgfPoint(16, 4)}
    case 3 => HandicapPoints(2) + {SgfPoint(16, 16)}
    case 4 => HandicapPoints(3) + {SgfPoint(4, 4)}
    case 5 => HandicapPoints(4) + {Center}
    case 6 => HandicapPoints(4) + {SgfPoint(4, 10), SgfPoint(16, 10)}
    case 7 => HandicapPoints(6) + {Center}
    case 8 => HandicapPoints(6) + {SgfPoint(10, 4), SgfPoint(10, 16)}
    case 9 => HandicapPoints(8) + {Center}
    case _ => {}
  }

  /** Adding points not yet placed adds their number. */
  lemma CardinalityOfDisjointUnion(a: set<SgfPoint>, b: set<SgfPoint>)
    requires a !! b
    ensures |a + b| == |a| + |b|
  {
    assert a * b == {};
  }

  /** Adding a point not yet placed adds one. */
  lemma CardinalityOfAddedPoint(a: set<SgfPoint>, p: SgfPoint)
    requires p !in a
    ensures |a + {p}| == |a| + 1
  {
    assert a * {p} == {};
  }

  /** The centre is taken exactly for 5, 7 and 9 stones. */
  lemma {:induction false} HandicapPointsCenter(n: Int32)
    ensures Center in HandicapPoints(n) <==> n == 5 || n == 7 || n == 9
  {
    match n
    case 2 =>
    case 3 => HandicapPointsCenter(2);
    case 4 => HandicapPointsCenter(3);
    case 5 =>
    case 6 => HandicapPointsCenter(4);
    case 7 =>
    case 8 => HandicapPointsCenter(6);
    case 9 =>
    case _ =>
  }

  /** n distinct stones for 2 <= n <= 9, none otherwise. */
  lemma HandicapPointsCount(n: Int32)
    ensures 2 <= n <= 9 ==> |HandicapPoints(n)| == n as int
    ensures !(2 <= n <= 9) ==> HandicapPoints(n) == {}
  {
    match n
    case 2 => CountTwo();
    case 3 => CountThree();
    case 4 => CountFour();
    case 5 => CountFive();
    case 6 => CountSix();
    case 7 => CountSeven();
    case 8 => CountEight();
    case 9 => CountNine();
    case _ =>
  }

  lemma CountTwo()
    ensures |HandicapPoints(2)| == 2
  {
    assert SgfPoint(16, 4) !in {SgfPoint(4, 16)};
  }

  lemma CountThree()
    ensures |HandicapPoints(3)| == 3
  {
    CountTwo();
    CardinalityOfAddedPoint(HandicapPoints(2), SgfPoint(16, 16));
  }

  lemma CountFour()
    ensures |HandicapPoints(4)| == 4
  {
    CountThree();
    assert SgfPoint(4, 4) !in HandicapPoints(3);
    CardinalityOfAddedPoint(HandicapPoints(3), SgfPoint(4, 4));
  }

  lemma CountFive()
    ensures |HandicapPoints(5)| == 5
  {
    CountFour();
    HandicapPointsCenter(4);
    CardinalityOfAddedPoint(HandicapPoints(4), Center);
  }

  lemma CountSix()
    ensures |HandicapPoints(6)| == 6
  {
    CountFour();
    var hp4, added := HandicapPoints(4), {SgfPoint(4, 10), SgfPoint(16, 10)};
    assert SgfPoint(4, 10) !in hp4 && SgfPoint(16, 10) !in hp4;
    assert |added| == 2;
    CardinalityOfDisjointUnion(hp4, added);
  }

  /** Up to six stones, none is on the middle column. */
  lemma {:induction false} MiddleColumnFree(n: Int32)
    requires n == 2 || n == 3 || n == 4 || n == 6
    ensures forall p :: p in HandicapPoints(n) ==> p.x != 10
  {
    match n
    case 2 =>
    case 3 => MiddleColumnFree(2);
    case 4 => MiddleColumnFree(3);
    case 6 => MiddleColumnFree(4);
  }

  lemma CountSeven()
    ensures |HandicapPoints(7)| == 7
  {
    CountSix();
    HandicapPointsCenter(6);
    CardinalityOfAddedPoint(HandicapPoints(6), Center);
  }

  lemma CountEight()
    ensures |HandicapPoints(8)| == 8
  {
    CountSix();
    var hp6, added := HandicapPoints(6), {SgfPoint(10, 4), SgfPoint(10, 16)};
    MiddleColumnFree(6);
    assert |added| == 2;
    CardinalityOfDisjointUnion(hp6, added);
  }

  lemma CountNine()
    ensures |HandicapPoints(9)| == 9
  {
    CountEight();
    HandicapPointsCenter(8);
    CardinalityOfAddedPoint(HandicapPoints(8), Center);
  }

  /** One more stone keeps every earlier stone in place, except when the
      centre stone of 5 or 7 gives way to the two side stones of 6 or 8. */
  lemma HandicapPointsGrow(n: Int32)
    requires 2 <= n < 9
    ensures HandicapPoints(n) <= HandicapPoints(n + 1) <==> n != 5 && n != 7
  {
    if n == 5 || n == 7 {
      HandicapPointsCenter(n);
      HandicapPointsCenter(n + 1);
      assert Center in HandicapPoints(n) && Center !in HandicapPoints(n + 1);
    }
  }

  /** Where one more stone moves the centre stone aside, the placement two
      stones back is kept: 6 stones build on 4, and 8 on 6. */
  lemma HandicapPointsNested()
    ensures HandicapPoints(4) <= HandicapPoints(6)
    ensures HandicapPoints(6) <= HandicapPoints(8)
  {
  }

  /** HA and AB together when the handicap has a placement, nothing
      otherwise. */
  function HandicapProperties(g: Gibson.Gib): (r: seq<SgfProperty>)
    ensures |r| > 0 <==> 2 <= g.handicap <= 9
    ensures |r| > 0 ==> r == [HA(g.handicap as int), AB(HandicapPoints(g.handicap))]
    ensures |r| > 0 ==> |r[1].stones| == r[0].handicap
  {
    var points := HandicapPoints(g.handicap);
    HandicapPointsCount(g.handicap);
    if points != {} then [HA(g.handicap as int), AB(points)] else []
  }

  // ---------------------------------------------------------------------------
  // Time settings

  /** The OT text "<periods>x<seconds>". It loses nothing: both numbers
      can be read back. */
  function OvertimeText(t: Gibson.TimeSettings): (r: string)
    ensures ParseOvertime(r) == Some((t.overtimePeriods, t.overtimeSeconds))
  {
    var parts := [ShowInt(t.overtimePeriods), ShowInt(t.overtimeSeconds)];
    assert 'x' !in parts[0] && 'x' !in parts[1];
    assert parts[1..] == [ShowInt(t.overtimeSeconds)];
    var r := ShowInt(t.overtimePeriods) + "x" + ShowInt(t.overtimeSeconds);
    assert Text.Join(parts, 'x') == r;
    Text.SplitJoin(parts, 'x');
    ToIntOrNullShowInt(t.overtimePeriods);
    ToIntOrNullShowInt(t.overtimeSeconds);
    r
  }

  /** Reading an OT text back: two integers around one 'x'. */
  function ParseOvertime(s: string): (r: Option<(Int32, Int32)>)
    ensures r.Some? ==> 'x' in s
  {
    var parts := Text.Split(s, 'x');
    if |parts| != 2 then None
    else
      var periods :- ToIntOrNull(parts[0]);
      var seconds :- ToIntOrNull(parts[1]);
      Some((periods, seconds))
  }

  /** OT, then TM in seconds, when the record has time settings. */
  function TimeSettingsProperties(g: Gibson.Gib): (r: seq<SgfProperty>)
    ensures g.timeSettings.None? ==> r == []
    ensures g.timeSettings.Some? ==>
              && |r| == 2
              && r[0] == OT(ShowInt(g.timeSettings.value.overtimePeriods) + "x" + ShowInt(g.timeSettings.value.overtimeSeconds))
              && ParseOvertime(r[0].overtime) == Some((g.timeSettings.value.overtimePeriods, g.timeSettings.value.overtimeSeconds))
              && r[1] == TM(g.timeSettings.value.timeLimit as real)
  {
    match g.timeSettings
    case None => []
    case Some(t) =>
      [OT(OvertimeText(t)), TM(t.timeLimit as real)]
  }

  // ---------------------------------------------------------------------------
  // Root and game info

  const RootProperties: seq<SgfProperty> :=
    [SZ(19), GM(Go), AP("gib2sgf", "0.1.0"), CA("UTF-8"), FF(4)]

  /** The root node says: a 19x19 board, Go, written by gib2sgf 0.1.0,
      UTF-8, format 4, each of these once and nothing else. */
  lemma RootPropertiesDescribeGame()
    ensures OneOfEachRootKind(RootProperties)
    ensures FF(4) in RootProperties && GM(Go) in RootProperties && SZ(19) in RootProperties
    ensures CA("UTF-8") in RootProperties && AP("gib2sgf", "0.1.0") in RootProperties
  {
  }

  /** The RE value for a result: the same kind of win by the same player,
      with the same score. */
  function ToSgfResult(res: Gibson.GameResult): (r: SgfResult)
    ensures r.Score? <==> res.Score?
    ensures r.Resignation? <==> res.Resignation?
    ensures r.winner == ToSgfColor(res.winner)
    ensures res.Score? ==> r.score == res.score
  {
    match res
    case Score(winner, score) => Score(ToSgfColor(winner), score)
    case Resignation(winner) => Resignation(ToSgfColor(winner))
    case Time(winner) => Time(ToSgfColor(winner))
  }

  /** A game-info property reports one of the record's fields. */
  predicate Reports(g: Gibson.Gib, p: SgfProperty) {
    match p
    case PC(v) => g.gamePlace == Some(v)
    case PB(v) => g.playerBlack == Some(v)
    case PW(v) => g.playerWhite == Some(v)
    case KM(v) => g.komi == Some(v)
    case RE(v) => g.gameResult.Some? && ToSgfResult(g.gameResult.value) == v
    case _ => false
  }

  /** The arguments of `listOfNotNull(PC, PB, PW, KM, RE)`. */
  function GameInfoSlots(g: Gibson.Gib): (slots: seq<Option<SgfProperty>>)
    ensures |slots| == 5
    ensures forall i :: 0 <= i < |slots| && slots[i].Some? ==> GameInfoRank(slots[i].value) == i
    ensures forall i :: 0 <= i < |slots| && slots[i].Some? ==> Reports(g, slots[i].value)
  {
    [ if g.gamePlace.Some? then Some(PC(g.gamePlace.value)) else None,
      if g.playerBlack.Some? then Some(PB(g.playerBlack.value)) else None,
      if g.playerWhite.Some? then Some(PW(g.playerWhite.value)) else None,
      if g.komi.Some? then Some(KM(g.komi.value)) else None,
      if g.gameResult.Some? then Some(RE(ToSgfResult(g.gameResult.value))) else None ]
  }

  /** Every property that reports a field has its slot. */
  lemma ReportedHasSlot(g: Gibson.Gib, p: SgfProperty)
    requires Reports(g, p)
    ensures Some(p) in GameInfoSlots(g)
  {
    var slots := GameInfoSlots(g);
    match p
    case PC(_) => assert slots[0] == Some(p);
    case PB(_) => assert slots[1] == Some(p);
    case PW(_) => assert slots[2] == Some(p);
    case KM(_) => assert slots[3] == Some(p);
    case RE(_) => assert slots[4] == Some(p);
  }

  /** PC, PB, PW, KM and RE in that order, each exactly when the record has
      the field. */
  function GameInfoProperties(g: Gibson.Gib): (r: seq<SgfProperty>)
    ensures InGameInfoOrder(r)
    ensures forall p :: p in r <==> Reports(g, p)
  {
    var slots := GameInfoSlots(g);
    FilterNotNullInOrder(slots, 0);
    var r := Text.FilterNotNull(slots);
    forall p | Reports(g, p) ensures p in r {
      ReportedHasSlot(g, p);
    }
    r
  }

  // ---------------------------------------------------------------------------
  // Moves

  /** A stone on its point, coordinates unchanged, or a pass. */
  function ToSgfMove(m: Gibson.Move): (r: SgfMove)
    ensures r.Pass? <==> m.Pass?
    ensures m.Point? ==> r.point.x == m.x as int && r.point.y == m.y as int
  {
    match m
    case Point(_, _, x, y) => Stone(SgfPoint(x as int, y as int))
    case Pass(_, _) => Pass
  }

  /** Move k of `moves` gives the properties at 2k and 2k + 1 of `r`: its
      play by its own colour, then its move number unchanged. */
  predicate MovesLaidOut(moves: seq<Gibson.Move>, r: seq<SgfProperty>) {
    && |r| == 2 * |moves|
    && forall k :: 0 <= k < |moves| ==>
         && r[2 * k] == Play(ToSgfColor(moves[k].color), ToSgfMove(moves[k]))
         && r[2 * k + 1] == MN(moves[k].moveNumber as int)
  }

  lemma MovesLaidOutCons(m: Gibson.Move, moves: seq<Gibson.Move>, r: seq<SgfProperty>)
    requires MovesLaidOut(moves, r)
    ensures MovesLaidOut([m] + moves, [Play(ToSgfColor(m.color), ToSgfMove(m)), MN(m.moveNumber as int)] + r)
  {
    var ms := [m] + moves;
    var rs := [Play(ToSgfColor(m.color), ToSgfMove(m)), MN(m.moveNumber as int)] + r;
    forall k | 0 < k < |ms|
      ensures rs[2 * k] == Play(ToSgfColor(ms[k].color), ToSgfMove(ms[k]))
      ensures rs[2 * k + 1] == MN(ms[k].moveNumber as int)
    {
      Text.PairsShift(Play(ToSgfColor(m.color), ToSgfMove(m)), MN(m.moveNumber as int), r, k);
      assert ms[k] == moves[k - 1];
    }
  }

  /** Two properties per move, in order: B or W, then MN. */
  function MoveProperties(moves: seq<Gibson.Move>): (r: seq<SgfProperty>)
    ensures MovesLaidOut(moves, r)
  {
    if |moves| == 0 then
      []
    else
      var rest := MoveProperties(moves[1..]);
      assert moves == [moves[0]] + moves[1..];
      MovesLaidOutCons(moves[0], moves[1..], rest);
      [Play(ToSgfColor(moves[0].color), ToSgfMove(moves[0])), MN(moves[0].moveNumber as int)] + rest
  }

  /** Reading moves back from B/W and MN pairs. */
  function DecodeMoves(r: seq<SgfProperty>): (moves: Option<seq<Gibson.Move>>)
    ensures moves.Some? ==> 2 * |moves.value| == |r|
  {
    if |r| == 0 then Some([])
    else if |r| == 1 || !IsMove(r[0]) || !r[1].MN? || !(MinInt <= r[1].moveNumber <= MaxInt) then None
    else
      var color := FromSgfColor(PlayerOf(r[0]));
      var number := r[1].moveNumber as Int32;
      var move :- match MoveOf(r[0])
        case Pass => Some(Gibson.Pass(color, number))
        case Stone(p) =>
          if MinInt <= p.x <= MaxInt && MinInt <= p.y <= MaxInt
          then Some(Gibson.Point(color, number, p.x as Int32, p.y as Int32))
          else None;
      var rest :- DecodeMoves(r[2..]);
      Some([move] + rest)
  }

  /** The move properties lose nothing: the moves can be read back. */
  lemma {:induction false} DecodeMoveProperties(moves: seq<Gibson.Move>)
    ensures DecodeMoves(MoveProperties(moves)) == Some(moves)
  {
    if |moves| > 0 {
      var r := MoveProperties(moves);
      assert r[2..] == MoveProperties(moves[1..]);
      DecodeMoveProperties(moves[1..]);
      assert moves == [moves[0]] + moves[1..];
    }
  }

  // ---------------------------------------------------------------------------
  // The whole list

  /** Root, game info, handicap, time settings, then moves. */
  function SgfProperties(g: Gibson.Gib): (r: seq<SgfProperty>)
    ensures var info := GameInfoProperties(g);
            var handicap := HandicapProperties(g);
            var time := TimeSettingsProperties(g);
            var a := |RootProperties|;
            var b := a + |info|;
            var c := b + |handicap|;
            var d := c + |time|;
            && |r| == d + 2 * |g.moves|
            && r[..a] == RootProperties
            && r[a..b] == info
            && r[b..c] == handicap
            && r[c..d] == time
            && MovesLaidOut(g.moves, r[d..])
  {
    var info := GameInfoProperties(g);
    var handicap := HandicapProperties(g);
    var time := TimeSettingsProperties(g);
    var moves := MoveProperties(g.moves);
    Text.SlicesOfConcat5(RootProperties, info, handicap, time, moves);
    RootProperties + info + handicap + time + moves
  }

  /** Both converters write the same root properties, in a different
      order. */
  lemma SameRootProperties()
    ensures multiset(RootProperties) == multiset([FF(4), GM(Go), SZ(19), CA("UTF-8"), AP("gib2sgf", "0.1.0")])
    ensures RootProperties != [FF(4), GM(Go), SZ(19), CA("UTF-8"), AP("gib2sgf", "0.1.0")]
  {
  }
}
