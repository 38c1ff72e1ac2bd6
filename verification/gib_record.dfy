/** The GIB game record (Gib.kt): the raw header map and the list of game
    properties, and the fields derived from them. The source computes the
    derived fields lazily and caches them; here they are plain functions. */
module GibRecord {
  import opened Wrappers
  import opened Decimal
  import opened Text
  import opened Errors

  const HeaderGameInfo := "GAMEINFOMAIN"
  const HeaderGamePlace := "GAMEPLACE"
  const HeaderKomi := "GAMEGONGJE"
  const HeaderGameScore := "GAMEZIPSU"
  const HeaderBlackPlayer := "GAMEBLACKNAME"
  const HeaderWhitePlayer := "GAMEWHITENAME"
  const GameInfoGameResult := "GRLT"
  const GameInfoTimeInfo := "GTIME"

  datatype GibColor = Black | White

  /** One property of the game section: a stone (STO), the handicap set-up
      (INI) or a pass (SKI). */
  datatype GibGameProperty =
    | STO(moveNumber: Int32, color: GibColor, point: (Int32, Int32))
    | INI(handicap: Int32)
    | SKI(moveNumber: Int32)

  datatype GibHeader = GibHeader(properties: map<string, string>)

  datatype GibGame = GibGame(properties: seq<GibGameProperty>)

  datatype Gib = Gib(header: GibHeader, game: GibGame)

  /** What the record says about the outcome. The source renders it as text
      ("B+<score>", "W+R", ...); a score result whose score is missing renders
      with "null" in place of the number. */
  datatype GibResult =
    | Score(winner: GibColor, score: Option<real>)
    | Resignation(winner: GibColor)
    | Time(winner: GibColor)

  /** `map[key]` on a Kotlin map: null when the key is absent. */
  function Get(m: map<string, string>, key: string): (r: Option<string>)
    ensures r.Some? <==> key in m
    ensures r.Some? ==> r.value == m[key]
  {
    if key in m then Some(m[key]) else None
  }

  /** `?.toIntOrNull()`. */
  function IntOrNull(text: Option<string>): Option<Int32>
  {
    if text.Some? then ToIntOrNull(text.value) else None
  }

  /** A header number counted in tenths: `?.toIntOrNull()?.let { it / 10.0 }`. */
  function Tenths(text: Option<string>): (r: Option<real>)
    ensures r.Some? <==> text.Some? && IsIntLiteral(text.value) && MinInt <= LiteralValue(text.value) <= MaxInt
    ensures r.Some? ==> r.value * 10.0 == LiteralValue(text.value) as real
  {
    match IntOrNull(text)
    case None => None
    case Some(n) => Some(n as real / 10.0)
  }

  /** A header holding the rendering of an `Int` n yields n tenths. */
  lemma TenthsOfRendered(n: Int32)
    ensures Tenths(Some(ShowInt(n))) == Some(n as real / 10.0)
  {
    ToIntOrNullShowInt(n);
  }

  // ---------------------------------------------------------------------------
  // The GAMEINFOMAIN sub-map

  /** The `(name, value)` destructuring of `piece.split(":")`: the text before
      the first ':' and the text between the first and the second ':'. A piece
      without ':' splits into one part, so taking the second part fails. */
  function GameInfoEntry(piece: string): (r: Result<(string, string), CrashKind>)
    ensures r.Success? <==> ':' in piece
    ensures r.Failure? ==> r.error == IndexOutOfBounds
    ensures r.Success? ==> ':' !in r.value.0 && ':' !in r.value.1
    ensures r.Success? ==>
              || piece == r.value.0 + ":" + r.value.1
              || r.value.0 + ":" + r.value.1 + ":" <= piece
  {
    var parts := Split(piece, ':');
    if |parts| < 2 then
      Failure(IndexOutOfBounds)
    else
      assert piece == parts[0] + [':'] + Join(parts[1..], ':');
      assert |parts| > 2 ==> Join(parts[1..], ':') == parts[1] + [':'] + Join(parts[2..], ':') by {
        if |parts| > 2 {
          assert parts[1..][1..] == parts[2..];
        }
      }
      Success((parts[0], parts[1]))
  }

  /** Every piece has a name and a value. */
  predicate AllPiecesNamed(pieces: seq<string>) {
    forall i :: 0 <= i < |pieces| ==> ':' in pieces[i]
  }

  /** `entries` are the entries of `pieces`, one for one. */
  predicate EntriesOf(pieces: seq<string>, entries: seq<(string, string)>) {
    && |entries| == |pieces|
    && forall i :: 0 <= i < |pieces| ==> GameInfoEntry(pieces[i]) == Success(entries[i])
  }

  lemma EntriesOfCons(piece: string, entry: (string, string), pieces: seq<string>, entries: seq<(string, string)>)
    requires GameInfoEntry(piece) == Success(entry)
    requires EntriesOf(pieces, entries)
    ensures EntriesOf([piece] + pieces, [entry] + entries)
  {
    var ps, es := [piece] + pieces, [entry] + entries;
    forall i | 0 <= i < |ps| ensures GameInfoEntry(ps[i]) == Success(es[i]) {
      if i > 0 {
        assert ps[i] == pieces[i - 1] && es[i] == entries[i - 1];
      }
    }
  }

  /** The entries of all pieces, in order; the first piece without ':' aborts. */
  function GameInfoEntries(pieces: seq<string>): (r: Result<seq<(string, string)>, CrashKind>)
    ensures r.Success? <==> AllPiecesNamed(pieces)
    ensures r.Failure? ==> r.error == IndexOutOfBounds
    ensures r.Success? ==> EntriesOf(pieces, r.value)
  {
    if |pieces| == 0 then
      Success([])
    else
      match GameInfoEntry(pieces[0])
      case Failure(e) => Failure(e)
      case Success(first) =>
        match GameInfoEntries(pieces[1..])
        case Failure(e) =>
          assert !AllPiecesNamed(pieces) by {
            var i :| 0 <= i < |pieces[1..]| && ':' !in pieces[1..][i];
            assert pieces[i + 1] == pieces[1..][i];
          }
          Failure(e)
        case Success(rest) =>
          EntriesOfCons(pieces[0], first, pieces[1..], rest);
          assert [pieces[0]] + pieces[1..] == pieces;
          Success([first] + rest)
  }

  /** `GAMEINFOMAIN` read as a comma-separated list of `name:value` pieces.
      Absent, it is the empty map; present, every piece must contain ':', and a
      later piece with the same name replaces an earlier one. */
  function GameInfo(g: Gib): (r: Result<map<string, string>, CrashKind>)
    ensures HeaderGameInfo !in g.header.properties ==> r == Success(map[])
    ensures r.Failure? ==> r.error == IndexOutOfBounds
    ensures HeaderGameInfo in g.header.properties ==>
              var pieces := Split(g.header.properties[HeaderGameInfo], ',');
              && (r.Success? <==> AllPiecesNamed(pieces))
              && (r.Success? ==> r.value == Associate(GameInfoEntries(pieces).value))
  {
    if HeaderGameInfo !in g.header.properties then
      Success(map[])
    else
      match GameInfoEntries(Split(g.header.properties[HeaderGameInfo], ','))
      case Failure(e) => Failure(e)
      case Success(entries) => Success(Associate(entries))
  }

  /** A present but empty GAMEINFOMAIN splits into one empty piece, which has
      no ':', so every field read from the sub-map fails. */
  lemma EmptyGameInfoFails(g: Gib)
    requires HeaderGameInfo in g.header.properties && g.header.properties[HeaderGameInfo] == ""
    ensures GameInfo(g).Failure?
  {
    assert Split("", ',') == [""];
  }

  // ---------------------------------------------------------------------------
  // Handicap and colour

  /** The handicap of every INI property, in order. */
  function IniHandicaps(ps: seq<GibGameProperty>): (r: seq<Int32>)
    ensures (forall i :: 0 <= i < |ps| ==> !ps[i].INI?) <==> r == []
    ensures forall i, j :: 0 <= i < j < |ps| && ps[i].INI? && ps[j].INI? ==> |r| >= 2
    ensures forall i ::
              (0 <= i < |ps| && ps[i].INI? && forall j :: 0 <= j < |ps| && j != i ==> !ps[j].INI?) ==>
              r == [ps[i].handicap]
  {
    if |ps| == 0 then
      []
    else
      var rest := IniHandicaps(ps[1..]);
      assert forall i :: 1 <= i < |ps| ==> ps[i] == ps[1..][i - 1];
      (if ps[0].INI? then [ps[0].handicap] else []) + rest
  }

  /** The handicap: the value of the only INI property, and 0 when there is no
      INI property or more than one. */
  function Handicap(g: Gib): (r: Int32)
    ensures (forall i :: 0 <= i < |g.game.properties| ==> !g.game.properties[i].INI?) ==> r == 0
    ensures forall i, j ::
              (0 <= i < j < |g.game.properties| && g.game.properties[i].INI? && g.game.properties[j].INI?) ==>
              r == 0
    ensures forall i ::
              (&& 0 <= i < |g.game.properties| && g.game.properties[i].INI?
               && forall j :: 0 <= j < |g.game.properties| && j != i ==> !g.game.properties[j].INI?) ==>
              r == g.game.properties[i].handicap
  {
    var handicaps := IniHandicaps(g.game.properties);
    if |handicaps| == 1 then handicaps[0] else 0
  }

  /** White moves first exactly in games with at least two handicap stones. */
  function StartColor(g: Gib): (r: GibColor)
    ensures r == White <==> Handicap(g) >= 2
  {
    if Handicap(g) >= 2 then White else Black
  }

  // ---------------------------------------------------------------------------
  // Header fields

  /** GAMEGONGJE in tenths: absent when the header is missing or not an
      `Int`. */
  function Komi(g: Gib): (r: Option<real>)
    ensures var text := Get(g.header.properties, HeaderKomi);
            && (r.Some? <==> text.Some? && ToIntOrNull(text.value).Some?)
            && (r.Some? ==> r.value * 10.0 == ToIntOrNull(text.value).value as real)
  {
    Tenths(Get(g.header.properties, HeaderKomi))
  }

  /** The GAMEPLACE header, as it is. */
  function GamePlace(g: Gib): (r: Option<string>)
    ensures r.Some? <==> HeaderGamePlace in g.header.properties
    ensures r.Some? ==> r.value == g.header.properties[HeaderGamePlace]
  {
    Get(g.header.properties, HeaderGamePlace)
  }

  /** The GAMEBLACKNAME header, as it is. */
  function PlayerBlack(g: Gib): (r: Option<string>)
    ensures r.Some? <==> HeaderBlackPlayer in g.header.properties
    ensures r.Some? ==> r.value == g.header.properties[HeaderBlackPlayer]
  {
    Get(g.header.properties, HeaderBlackPlayer)
  }

  /** The GAMEWHITENAME header, as it is. */
  function PlayerWhite(g: Gib): (r: Option<string>)
    ensures r.Some? <==> HeaderWhitePlayer in g.header.properties
    ensures r.Some? ==> r.value == g.header.properties[HeaderWhitePlayer]
  {
    Get(g.header.properties, HeaderWhitePlayer)
  }

  /** GAMEZIPSU in tenths, read the same way as the komi. */
  function GameScore(g: Gib): (r: Option<real>)
    ensures var text := Get(g.header.properties, HeaderGameScore);
            && (r.Some? <==> text.Some? && ToIntOrNull(text.value).Some?)
            && (r.Some? ==> r.value * 10.0 == ToIntOrNull(text.value).value as real)
  {
    Tenths(Get(g.header.properties, HeaderGameScore))
  }

  // ---------------------------------------------------------------------------
  // Result

  /** `gameInfo[GRLT]?.toIntOrNull()`: present exactly when GRLT is in the
      sub-map and an `Int`. */
  function ResultCode(g: Gib): (r: Result<Option<Int32>, CrashKind>)
    ensures r.Success? <==> GameInfo(g).Success?
    ensures r.Failure? ==> r.error == IndexOutOfBounds
    ensures r.Success? ==>
              var info := GameInfo(g).value;
              && (r.value.Some? <==> GameInfoGameResult in info && ToIntOrNull(info[GameInfoGameResult]).Some?)
              && (r.value.Some? ==> r.value.value == ToIntOrNull(info[GameInfoGameResult]).value)
  {
    var info :- GameInfo(g);
    Success(IntOrNull(Get(info, GameInfoGameResult)))
  }

  /** The result from its code: 0 and 1 are wins on the score for Black and
      White, 3 and 4 wins by resignation, 7 and 8 wins on time; any other code,
      a code that is not an integer and a missing code give no result. */
  function GameResult(g: Gib): (r: Result<Option<GibResult>, CrashKind>)
    ensures r.Success? <==> GameInfo(g).Success?
    ensures r.Failure? ==> r.error == IndexOutOfBounds
    ensures r.Success? ==>
              var code := ResultCode(g).value;
              && (r.value.Some? <==> code.Some? && code.value in {0, 1, 3, 4, 7, 8})
              && (r.value.Some? ==>
                    && (r.value.value.Score? <==> code.value in {0, 1})
                    && (r.value.value.Resignation? <==> code.value in {3, 4})
                    && (r.value.value.winner == Black <==> code.value in {0, 3, 7})
                    && (r.value.value.Score? ==> r.value.value.score == GameScore(g)))
  {
    var code :- ResultCode(g);
    match code
    case Some(0) => Success(Some(Score(Black, GameScore(g))))
    case Some(1) => Success(Some(Score(White, GameScore(g))))
    case Some(3) => Success(Some(Resignation(Black)))
    case Some(4) => Success(Some(Resignation(White)))
    case Some(7) => Success(Some(Time(Black)))
    case Some(8) => Success(Some(Time(White)))
    case _ => Success(None)
  }

  /** Results by resignation and on time do not read GAMEZIPSU: two records
      that differ only in that header give the same such result. */
  lemma NonScoreResultIgnoresScore(g1: Gib, g2: Gib)
    requires g1.header.properties - {HeaderGameScore} == g2.header.properties - {HeaderGameScore}
    requires g1.game == g2.game
    requires GameResult(g1).Success? && GameResult(g1).value.Some? && !GameResult(g1).value.value.Score?
    ensures GameResult(g2) == GameResult(g1)
  {
    GameInfoIgnoresScore(g1, g2);
    assert ResultCode(g1) == ResultCode(g2);
  }

  /** GAMEINFOMAIN is not GAMEZIPSU, so the sub-map does not read the score. */
  lemma GameInfoIgnoresScore(g1: Gib, g2: Gib)
    requires g1.header.properties - {HeaderGameScore} == g2.header.properties - {HeaderGameScore}
    ensures GameInfo(g1) == GameInfo(g2)
  {
    var h1, h2 := g1.header.properties, g2.header.properties;
    assert HeaderGameInfo != HeaderGameScore;
    assert HeaderGameInfo in h1 <==> HeaderGameInfo in h1 - {HeaderGameScore};
    assert HeaderGameInfo in h2 <==> HeaderGameInfo in h2 - {HeaderGameScore};
    if HeaderGameInfo in h1 {
      assert h1[HeaderGameInfo] == (h1 - {HeaderGameScore})[HeaderGameInfo];
      assert h2[HeaderGameInfo] == (h2 - {HeaderGameScore})[HeaderGameInfo];
    }
  }


  // ---------------------------------------------------------------------------
  // Time settings

  /** `gameInfo[GTIME]?.split("-")`. */
  function TimeInfo(g: Gib): (r: Result<Option<seq<string>>, CrashKind>)
    ensures r.Success? <==> GameInfo(g).Success?
    ensures r.Failure? ==> r.error == IndexOutOfBounds
    ensures r.Success? ==> (r.value.Some? <==> GameInfoTimeInfo in GameInfo(g).value)
    ensures r.Success? && r.value.Some? ==>
              |r.value.value| >= 1 && Join(r.value.value, '-') == GameInfo(g).value[GameInfoTimeInfo]
    ensures r.Success? && r.value.Some? ==> forall i :: 0 <= i < |r.value.value| ==> '-' !in r.value.value[i]
  {
    var info :- GameInfo(g);
    match Get(info, GameInfoTimeInfo)
    case None => Success(None)
    case Some(text) => Success(Some(Split(text, '-')))
  }

  /** The main time in seconds: the text before the first '-' of GTIME, when it
      is an integer. Only that first part is read, so GTIME needs no '-' at
      all for a time limit to exist. */
  function TimeLimit(g: Gib): (r: Result<Option<real>, CrashKind>)
    ensures r.Success? <==> GameInfo(g).Success?
    ensures r.Failure? ==> r.error == IndexOutOfBounds
    ensures r.Success? ==>
              var info := GameInfo(g).value;
              && (GameInfoTimeInfo !in info ==> r.value == None)
              && (GameInfoTimeInfo in info ==>
                    var first := info[GameInfoTimeInfo][..IndexOf(info[GameInfoTimeInfo], '-')];
                    && (r.value.Some? <==> ToIntOrNull(first).Some?)
                    && (r.value.Some? ==> r.value.value == ToIntOrNull(first).value as real))
  {
    var parts :- TimeInfo(g);
    match parts
    case None => Success(None)
    case Some(ps) =>
      match ToIntOrNull(ps[0])
      case None => Success(None)
      case Some(n) => Success(Some(n as real))
  }

  /** The byo-yomi text "<stones>x<seconds> byo-yomi" built from the third and
      second parts of GTIME as they are, with no integer check. Fewer than
      three parts fail. */
  function Overtime(g: Gib): (r: Result<Option<string>, CrashKind>)
    ensures r.Failure? ==> r.error == IndexOutOfBounds
    ensures r.Success? ==> GameInfo(g).Success?
    ensures GameInfo(g).Success? && GameInfoTimeInfo !in GameInfo(g).value ==> r == Success(None)
    ensures GameInfo(g).Success? && GameInfoTimeInfo in GameInfo(g).value ==>
              var parts := Split(GameInfo(g).value[GameInfoTimeInfo], '-');
              && (r.Success? <==> |parts| >= 3)
              && (r.Success? ==> r.value == Some(parts[2] + "x" + parts[1] + " byo-yomi"))
  {
    var parts :- TimeInfo(g);
    match parts
    case None => Success(None)
    case Some(ps) =>
      if |ps| < 3 then Failure(IndexOutOfBounds)
      else Success(Some(ps[2] + "x" + ps[1] + " byo-yomi"))
  }

  /** Three non-negative integers written with '-' between them split back
      into their three renderings. */
  lemma SplitRenderedTriple(a: Int32, b: Int32, c: Int32)
    requires a >= 0 && b >= 0 && c >= 0
    ensures Split(ShowInt(a) + "-" + ShowInt(b) + "-" + ShowInt(c), '-') == [ShowInt(a), ShowInt(b), ShowInt(c)]
  {
    var parts := [ShowInt(a), ShowInt(b), ShowInt(c)];
    assert '-' !in parts[0] && '-' !in parts[1] && '-' !in parts[2];
    assert parts[1..] == [ShowInt(b), ShowInt(c)];
    assert parts[1..][1..] == [ShowInt(c)];
    assert Join(parts[1..], '-') == ShowInt(b) + "-" + ShowInt(c);
    assert Join(parts, '-') == ShowInt(a) + "-" + ShowInt(b) + "-" + ShowInt(c);
    SplitJoin(parts, '-');
  }

  /** A GTIME written as "<limit>-<seconds>-<stones>" from non-negative
      integers gives back the limit and the byo-yomi text. */
  lemma TimeFieldsOfRendered(g: Gib, limit: Int32, seconds: Int32, stones: Int32)
    requires limit >= 0 && seconds >= 0 && stones >= 0
    requires GameInfo(g).Success? && GameInfoTimeInfo in GameInfo(g).value
    requires GameInfo(g).value[GameInfoTimeInfo] == ShowInt(limit) + "-" + ShowInt(seconds) + "-" + ShowInt(stones)
    ensures TimeLimit(g) == Success(Some(limit as real))
    ensures Overtime(g) == Success(Some(ShowInt(stones) + "x" + ShowInt(seconds) + " byo-yomi"))
  {
    SplitRenderedTriple(limit, seconds, stones);
    ToIntOrNullShowInt(limit);
    assert TimeInfo(g) == Success(Some([ShowInt(limit), ShowInt(seconds), ShowInt(stones)]));
  }
}
