/** The projection of this repository's GIB record onto SGF properties
    (GibToSgfConversion.kt): the fixed root properties, the game-info
    properties that are present, and two properties per stone or pass. */
module GibToSgfConversion {
  import opened Wrappers
  import opened Decimal
  import opened Errors
  import opened Sgf
  import GibRecord
  import Text

  const RootProperties: seq<SgfProperty> :=
    [FF(4), GM(Go), SZ(19), CA("UTF-8"), AP("gib2sgf", "0.1.0")]

  /** The root node says: format 4, Go, a 19x19 board, UTF-8, written by
      gib2sgf 0.1.0, each of these once and nothing else. */
  lemma RootPropertiesDescribeGame()
    ensures OneOfEachRootKind(RootProperties)
    ensures FF(4) in RootProperties && GM(Go) in RootProperties && SZ(19) in RootProperties
    ensures CA("UTF-8") in RootProperties && AP("gib2sgf", "0.1.0") in RootProperties
  {
  }

  /** The source picks B or W by the GIB colour; this is that choice. */
  function ToSgfColor(c: GibRecord.GibColor): (r: SgfColor)
    ensures r == Black <==> c == GibRecord.Black
  {
    match c
    case Black => Black
    case White => White
  }

  /** The RE value for a GIB result: the same kind of win by the same
      player, with the same score. */
  function ToSgfResult(res: GibRecord.GibResult): (r: SgfResult)
    ensures r.Score? <==> res.Score?
    ensures r.Resignation? <==> res.Resignation?
    ensures r.winner == ToSgfColor(res.winner)
    ensures res.Score? ==> r.score == res.score
  {
    match res
    case Score(winner, score) => Score(ToSgfColor(winner), score)
    case Resignation(winner) => Resignation(ToSgfColor(winner))
    case Time(winner) => Time(ToSgfColor(winner))
  }

  // ---------------------------------------------------------------------------
  // Game info

  /** The record's game-info fields, once read. */
  datatype GameInfoFields = GameInfoFields(
    place: Option<string>, black: Option<string>, white: Option<string>, komi: Option<real>,
    result: Option<SgfResult>, timeLimit: Option<real>, overtime: Option<string>, handicap: int)

  /** A game-info property states one of the fields. */
  predicate States(f: GameInfoFields, p: SgfProperty) {
    match p
    case PC(v) => f.place == Some(v)
    case PB(v) => f.black == Some(v)
    case PW(v) => f.white == Some(v)
    case KM(v) => f.komi == Some(v)
    case RE(v) => f.result == Some(v)
    case TM(v) => f.timeLimit == Some(v)
    case OT(v) => f.overtime == Some(v)
    case HA(n) => n > 0 && n == f.handicap
    case _ => false
  }

  /** Argument i of `listOfNotNull(PC, PB, PW, KM, RE, TM, OT, HA)`: the
      property for a present field, HA only for a positive handicap. */
  function GameInfoSlot(f: GameInfoFields, i: nat): (o: Option<SgfProperty>)
    requires i < 8
    ensures o.Some? ==> GameInfoRank(o.value) == i && States(f, o.value)
  {
    match i
    case 0 => if f.place.Some? then Some(PC(f.place.value)) else None
    case 1 => if f.black.Some? then Some(PB(f.black.value)) else None
    case 2 => if f.white.Some? then Some(PW(f.white.value)) else None
    case 3 => if f.komi.Some? then Some(KM(f.komi.value)) else None
    case 4 => if f.result.Some? then Some(RE(f.result.value)) else None
    case 5 => if f.timeLimit.Some? then Some(TM(f.timeLimit.value)) else None
    case 6 => if f.overtime.Some? then Some(OT(f.overtime.value)) else None
    case 7 => if f.handicap > 0 then Some(HA(f.handicap)) else None
  }

  function GameInfoSlots(f: GameInfoFields): (slots: seq<Option<SgfProperty>>)
    ensures |slots| == 8
    ensures forall i :: 0 <= i < |slots| && slots[i].Some? ==> GameInfoRank(slots[i].value) == i
    ensures forall i :: 0 <= i < |slots| && slots[i].Some? ==> States(f, slots[i].value)
  {
    seq(8, i requires 0 <= i < 8 => GameInfoSlot(f, i))
  }

  /** Every property that states a field has its slot. */
  lemma StatedHasSlot(f: GameInfoFields, p: SgfProperty)
    requires States(f, p)
    ensures Some(p) in GameInfoSlots(f)
  {
    var slots := GameInfoSlots(f);
    match p
    case PC(_) => assert slots[0] == Some(p);
    case PB(_) => assert slots[1] == Some(p);
    case PW(_) => assert slots[2] == Some(p);
    case KM(_) => assert slots[3] == Some(p);
    case RE(_) => assert slots[4] == Some(p);
    case TM(_) => assert slots[5] == Some(p);
    case OT(_) => assert slots[6] == Some(p);
    case HA(_) => assert slots[7] == Some(p);
  }

  /** `listOfNotNull(PC, PB, PW, KM, RE, TM, OT, HA)`: the present fields in
      that order. A property is in the list exactly when it states one of
      the fields. */
  function GameInfoList(f: GameInfoFields): (r: seq<SgfProperty>)
    ensures InGameInfoOrder(r)
    ensures forall p :: p in r <==> States(f, p)
  {
    var slots := GameInfoSlots(f);
    FilterNotNullInOrder(slots, 0);
    var r := Text.FilterNotNull(slots);
    forall p | States(f, p) ensures p in r {
      StatedHasSlot(f, p);
    }
    r
  }

  /** The game-info fields of a record, read in the source's order; reading
      the result, the time limit or the byo-yomi can fail. */
  function ReadGameInfoFields(g: GibRecord.Gib): (r: Result<GameInfoFields, CrashKind>)
    ensures r.Success? <==> GibRecord.Overtime(g).Success?
    ensures r.Failure? ==> r.error == GibRecord.Overtime(g).error
    ensures r.Success? ==>
              && r.value.place == GibRecord.GamePlace(g)
              && r.value.black == GibRecord.PlayerBlack(g)
              && r.value.white == GibRecord.PlayerWhite(g)
              && r.value.komi == GibRecord.Komi(g)
              && (r.value.result.Some? <==> GibRecord.GameResult(g).value.Some?)
              && (r.value.result.Some? ==> r.value.result.value == ToSgfResult(GibRecord.GameResult(g).value.value))
              && r.value.timeLimit == GibRecord.TimeLimit(g).value
              && r.value.overtime == GibRecord.Overtime(g).value
              && r.value.handicap == GibRecord.Handicap(g)
  {
    // The source reads the result, then the time limit, then the byo-yomi.
    // The first two fail exactly when the GAMEINFOMAIN sub-map does, and so
    // does the third, which can also fail on its own; every one of these
    // failures is the same exception. So the byo-yomi alone decides.
    var overtime :- GibRecord.Overtime(g);
    var result := GibRecord.GameResult(g).value;
    Success(GameInfoFields(
      GibRecord.GamePlace(g), GibRecord.PlayerBlack(g), GibRecord.PlayerWhite(g), GibRecord.Komi(g),
      if result.Some? then Some(ToSgfResult(result.value)) else None,
      GibRecord.TimeLimit(g).value, overtime, GibRecord.Handicap(g)))
  }

  /** The game-info properties of a record: PC, PB, PW, KM, RE, TM, OT and
      HA in that order, each present exactly when the record has the field
      (HA when the handicap is positive) and holding the field's value. */
  function GameInfoProperties(g: GibRecord.Gib): (r: Result<seq<SgfProperty>, CrashKind>)
    ensures r.Success? <==> GibRecord.Overtime(g).Success?
    ensures r.Failure? ==> r.error == GibRecord.Overtime(g).error
    ensures r.Success? ==> InGameInfoOrder(r.value)
    ensures r.Success? ==> forall p :: p in r.value <==> States(ReadGameInfoFields(g).value, p)
  {
    var fields :- ReadGameInfoFields(g);
    Success(GameInfoList(fields))
  }

  // ---------------------------------------------------------------------------
  // Moves

  function Flip(c: GibRecord.GibColor): (r: GibRecord.GibColor)
    ensures r != c
  {
    match c
    case Black => GibRecord.White
    case White => GibRecord.Black
  }

  /** Flipping twice is the identity. */
  lemma FlipInvolution(c: GibRecord.GibColor)
    ensures Flip(Flip(c)) == c
  {
  }

  /** The player of a move from its number: the starting colour on even
      numbers, the other colour on odd ones (negative numbers included). */
  function ColorByMoveNumber(g: GibRecord.Gib, moveNumber: Int32): (r: GibRecord.GibColor)
    ensures r == GibRecord.StartColor(g) <==> moveNumber % 2 == 0
  {
    if Rem2(moveNumber) == 0 then GibRecord.StartColor(g) else Flip(GibRecord.StartColor(g))
  }

  predicate IsMoveEvent(p: GibRecord.GibGameProperty) {
    !p.INI?
  }

  /** The B or W property of a stone or a pass. A stone keeps its colour and
      point; a pass carries no colour and takes the one its number gives. */
  function MoveProperty(g: GibRecord.Gib, p: GibRecord.GibGameProperty): (r: SgfProperty)
    requires IsMoveEvent(p)
    ensures IsMove(r)
    ensures p.STO? ==> PlayerOf(r) == ToSgfColor(p.color) && MoveOf(r) == Stone(SgfPoint(p.point.0, p.point.1))
    ensures p.SKI? ==> PlayerOf(r) == ToSgfColor(ColorByMoveNumber(g, p.moveNumber)) && MoveOf(r) == Pass
  {
    match p
    case SKI(moveNumber) => Play(ToSgfColor(ColorByMoveNumber(g, moveNumber)), Pass)
    case STO(_, color, point) => Play(ToSgfColor(color), Stone(SgfPoint(point.0, point.1)))
  }

  /** The move properties of the game: nothing for INI, and for each stone
      or pass, in order, its move number less one, then its move. */
  function GameMoveProperties(g: GibRecord.Gib, ps: seq<GibRecord.GibGameProperty>): (r: seq<SgfProperty>)
    ensures MovesLaidOut(g, Text.Filter(ps, IsMoveEvent), r)
  {
    if |ps| == 0 then
      []
    else
      var rest := GameMoveProperties(g, ps[1..]);
      MovesOfCons(g, ps, rest);
      if ps[0].INI? then rest else [MN(Dec(ps[0].moveNumber)), MoveProperty(g, ps[0])] + rest
  }

  /** One step of `flatMap`: the first property's two move properties, or
      none for INI, in front of the rest's. */
  lemma MovesOfCons(g: GibRecord.Gib, ps: seq<GibRecord.GibGameProperty>, rest: seq<SgfProperty>)
    requires |ps| > 0
    requires MovesLaidOut(g, Text.Filter(ps[1..], IsMoveEvent), rest)
    ensures MovesLaidOut(g, Text.Filter(ps, IsMoveEvent),
                         if ps[0].INI? then rest else [MN(Dec(ps[0].moveNumber)), MoveProperty(g, ps[0])] + rest)
  {
    Text.FilterCons(ps, IsMoveEvent);
    MovesLaidOutStep(g, ps[0], Text.Filter(ps[1..], IsMoveEvent), rest);
  }

  lemma MovesLaidOutStep(g: GibRecord.Gib, p: GibRecord.GibGameProperty,
                         moves: seq<GibRecord.GibGameProperty>, r: seq<SgfProperty>)
    requires forall k :: 0 <= k < |moves| ==> !moves[k].INI?
    requires MovesLaidOut(g, moves, r)
    ensures var ms := (if IsMoveEvent(p) then [p] else []) + moves;
            && (forall k :: 0 <= k < |ms| ==> !ms[k].INI?)
            && MovesLaidOut(g, ms, if p.INI? then r else [MN(Dec(p.moveNumber)), MoveProperty(g, p)] + r)
  {
    if p.INI? {
      assert [] + moves == moves;
    } else {
      MovesLaidOutCons(g, p, moves, r);
    }
  }

  /** Move k of `moves` gives the properties at 2k and 2k + 1 of `r`: its
      move number less one, then its move. */
  predicate MovesLaidOut(g: GibRecord.Gib, moves: seq<GibRecord.GibGameProperty>, r: seq<SgfProperty>)
    requires forall k :: 0 <= k < |moves| ==> !moves[k].INI?
  {
    && |r| == 2 * |moves|
    && forall k :: 0 <= k < |moves| ==>
         && r[2 * k] == MN(Dec(moves[k].moveNumber))
         && r[2 * k + 1] == MoveProperty(g, moves[k])
  }

  lemma MovesLaidOutCons(g: GibRecord.Gib, m: GibRecord.GibGameProperty,
                         moves: seq<GibRecord.GibGameProperty>, r: seq<SgfProperty>)
    requires IsMoveEvent(m)
    requires forall k :: 0 <= k < |moves| ==> !moves[k].INI?
    requires MovesLaidOut(g, moves, r)
    ensures MovesLaidOut(g, [m] + moves, [MN(Dec(m.moveNumber)), MoveProperty(g, m)] + r)
  {
    var ms := [m] + moves;
    var rs := [MN(Dec(m.moveNumber)), MoveProperty(g, m)] + r;
    forall k | 0 < k < |ms|
      ensures rs[2 * k] == MN(Dec(ms[k].moveNumber)) && rs[2 * k + 1] == MoveProperty(g, ms[k])
    {
      Text.PairsShift(MN(Dec(m.moveNumber)), MoveProperty(g, m), r, k);
      assert ms[k] == moves[k - 1];
    }
  }

  /** The whole list: the root properties, the game-info properties, then the
      move properties. */
  function ToSgf(g: GibRecord.Gib): (r: Result<seq<SgfProperty>, CrashKind>)
    ensures r.Success? <==> GameInfoProperties(g).Success?
    ensures r.Failure? ==> r.error == GibRecord.Overtime(g).error
    ensures r.Success? ==>
              var info := GameInfoProperties(g).value;
              var moves := GameMoveProperties(g, g.game.properties);
              && |r.value| == |RootProperties| + |info| + |moves|
              && r.value[..|RootProperties|] == RootProperties
              && r.value[|RootProperties|..|RootProperties| + |info|] == info
              && r.value[|RootProperties| + |info|..] == moves
  {
    match GameInfoProperties(g)
    case Failure(e) => Failure(e)
    case Success(info) =>
      var moves := GameMoveProperties(g, g.game.properties);
      Text.SlicesOfConcat3(RootProperties, info, moves);
      Success(RootProperties + info + moves)
  }
}
