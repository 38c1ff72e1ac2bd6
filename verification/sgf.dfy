/** The SGF FF[4] properties the converters produce, as the SGF library's
    property values. Building the game tree from them and writing SGF text
    are not part of this model. */
module Sgf {
  import opened Wrappers
  import Text

  datatype SgfColor = Black | White

  /** A board point as the SGF library takes it. */
  datatype SgfPoint = SgfPoint(x: int, y: int)

  datatype SgfMove = Stone(point: SgfPoint) | Pass

  datatype SgfResult =
    | Score(winner: SgfColor, score: Option<real>)
    | Resignation(winner: SgfColor)
    | Time(winner: SgfColor)

  datatype GameType = Go

  datatype SgfProperty =
    // root
    | FF(format: int)
    | GM(gameType: GameType)
    | SZ(size: int)
    | CA(charset: string)
    | AP(application: string, version: string)
    // game info
    | PC(place: string)
    | PB(playerBlack: string)
    | PW(playerWhite: string)
    | KM(komi: real)
    | RE(result: SgfResult)
    | TM(timeLimit: real)
    | OT(overtime: string)
    | HA(handicap: int)
    // setup
    | AB(stones: set<SgfPoint>)
    // moves
    | B(blackMove: SgfMove)
    | W(whiteMove: SgfMove)
    | MN(moveNumber: int)

  /** Which root property `p` is: FF, GM, SZ, CA, AP in turn, and 5 for
      any property that does not belong to the root node. */
  function RootKind(p: SgfProperty): nat
  {
    match p
    case FF(_) => 0
    case GM(_) => 1
    case SZ(_) => 2
    case CA(_) => 3
    case AP(_, _) => 4
    case _ => 5
  }

  /** Five root properties, one of each kind. */
  predicate OneOfEachRootKind(ps: seq<SgfProperty>) {
    && |ps| == 5
    && (forall i :: 0 <= i < |ps| ==> RootKind(ps[i]) < 5)
    && (forall i, j :: 0 <= i < j < |ps| ==> RootKind(ps[i]) != RootKind(ps[j]))
  }

  predicate IsMove(p: SgfProperty) {
    p.B? || p.W?
  }

  function PlayerOf(p: SgfProperty): SgfColor
    requires IsMove(p)
  {
    if p.B? then Black else White
  }

  function MoveOf(p: SgfProperty): SgfMove
    requires IsMove(p)
  {
    if p.B? then p.blackMove else p.whiteMove
  }

  /** The move property for a player: B for Black, W for White. */
  function Play(c: SgfColor, m: SgfMove): (p: SgfProperty)
    ensures IsMove(p) && PlayerOf(p) == c && MoveOf(p) == m
  {
    match c
    case Black => B(m)
    case White => W(m)
  }

  /** Every move property is the play of its own player and move. */
  lemma PlayOfParts(p: SgfProperty)
    requires IsMove(p)
    ensures Play(PlayerOf(p), MoveOf(p)) == p
  {
  }

  /** The position of a game-info property in the order both converters
      emit them. */
  function GameInfoRank(p: SgfProperty): nat
  {
    match p
    case PC(_) => 0
    case PB(_) => 1
    case PW(_) => 2
    case KM(_) => 3
    case RE(_) => 4
    case TM(_) => 5
    case OT(_) => 6
    case HA(_) => 7
    case _ => 8
  }

  /** Strictly increasing rank: the fixed order, each property at most once. */
  predicate InGameInfoOrder(ps: seq<SgfProperty>) {
    forall i, j :: 0 <= i < j < |ps| ==> GameInfoRank(ps[i]) < GameInfoRank(ps[j])
  }

  /** Every property of `ps` ranks after `n`. */
  predicate RanksAbove(ps: seq<SgfProperty>, n: int) {
    forall i :: 0 <= i < |ps| ==> n < GameInfoRank(ps[i])
  }

  /** Putting at most one property of lower rank in front keeps the order. */
  lemma PrependInGameInfoOrder(head: seq<SgfProperty>, rest: seq<SgfProperty>)
    requires |head| <= 1
    requires InGameInfoOrder(rest)
    requires |head| == 1 ==> RanksAbove(rest, GameInfoRank(head[0]))
    ensures InGameInfoOrder(head + rest)
  {
    var ps := head + rest;
    forall i, j | 0 <= i < j < |ps| ensures GameInfoRank(ps[i]) < GameInfoRank(ps[j]) {
      if |head| == 1 && i == 0 {
        assert ps[i] == head[0] && ps[j] == rest[j - 1];
      } else {
        assert ps[i] == rest[i - |head|] && ps[j] == rest[j - |head|];
      }
    }
  }

  /** `listOfNotNull` over slots whose properties rank start, start + 1, …
      in turn gives the properties in game-info order, all after start - 1. */
  lemma {:induction false} FilterNotNullInOrder(slots: seq<Option<SgfProperty>>, start: nat)
    requires forall i :: 0 <= i < |slots| && slots[i].Some? ==> GameInfoRank(slots[i].value) == start + i
    ensures InGameInfoOrder(Text.FilterNotNull(slots))
    ensures RanksAbove(Text.FilterNotNull(slots), start - 1)
  {
    if |slots| > 0 {
      var head := Text.ListOfNotNull(slots[0]);
      var rest := Text.FilterNotNull(slots[1..]);
      assert forall i :: 0 <= i < |slots[1..]| && slots[1..][i].Some? ==>
               GameInfoRank(slots[1..][i].value) == (start + 1) + i;
      FilterNotNullInOrder(slots[1..], start + 1);
      PrependInGameInfoOrder(head, rest);
      var r := head + rest;
      forall i | 0 <= i < |r| ensures start - 1 < GameInfoRank(r[i]) {
        if i >= |head| {
          assert r[i] == rest[i - |head|];
        }
      }
    }
  }
}
