/** From the parse tree to the game record (ParserExtensions.kt). The grammar
    and the generated lexer and parser are not part of this model: their output
    is taken as given, a header section of `(identifier, VALUE)` pairs and a game
    section of property nodes whose argument tokens carry their text and
    position, or a syntax error at some position. */
module ParserExtensions {
  import opened Wrappers
  import opened Decimal
  import opened Errors
  import opened GibRecord
  import Text

  /** A lexer token: its text, 1-based line and 0-based position in the line. */
  datatype Token = Token(text: string, line: int, charPositionInLine: int)

  /** A header property: the identifier and, when the grammar matched one, the
      raw VALUE token text (an opening quote, the value, then two closing
      characters). */
  datatype HeaderPropertyNode = HeaderPropertyNode(identifier: string, value: Option<string>)

  /** A game property node as the grammar tags it. */
  datatype GamePropertyNode =
    | MoveNode(moveNumber: Token, player: Token, x: Token, y: Token)
    | IniNode(handicap: Token)
    | PassNode(moveNumber: Token)
    | OtherNode

  /** The outcome of running the parser on one section. */
  datatype Section<T> =
    | Parsed(tree: T)
    | SyntaxError(line: int, charPositionInLine: int, msg: Option<string>)

  // ---------------------------------------------------------------------------
  // Markers

  /** The exception the error listener throws: a zero-width marker at the
      reported line and position, taken as they are. */
  function SyntaxErrorException(line: int, charPositionInLine: int, msg: Option<string>): (e: GibParseException)
    ensures e.message == msg
    ensures e.marker.startLineNumber == e.marker.endLineNumber == line
    ensures e.marker.startColumn == e.marker.endColumn == charPositionInLine
  {
    GibParseException(msg, Marker(line, charPositionInLine, line, charPositionInLine))
  }

  /** The span of a token on its own line: it starts one column after the
      0-based position and is as wide as the token text's `length`, which
      counts UTF-16 code units (one per character in the Basic Multilingual
      Plane). */
  function ToMarker(t: Token): (m: Marker)
    ensures m.startLineNumber == m.endLineNumber == t.line
    ensures m.startColumn == t.charPositionInLine + 1
    ensures m.endColumn - m.startColumn == |Text.Utf16(t.text)| >= |t.text|
    ensures (forall i :: 0 <= i < |t.text| ==> Text.IsBmp(t.text[i])) ==> m.endColumn - m.startColumn == |t.text|
  {
    var startColumn := t.charPositionInLine + 1;
    Marker(t.line, startColumn, t.line, startColumn + |Text.Utf16(t.text)|)
  }

  // ---------------------------------------------------------------------------
  // Strict token decoding

  /** A token read as an `Int`; anything else is a parse failure at the token. */
  function ToInt(t: Token): (r: Result<Int32, GibParseException>)
    ensures r.Success? <==> IsIntLiteral(t.text) && MinInt <= LiteralValue(t.text) <= MaxInt
    ensures r.Success? ==> r.value == LiteralValue(t.text)
    ensures r.Failure? ==>
              r.error == GibParseException(Some("Expected an integer, but got " + t.text), ToMarker(t))
  {
    match ToIntOrNull(t.text)
    case Some(n) => Success(n)
    case None => Failure(GibParseException(Some("Expected an integer, but got " + t.text), ToMarker(t)))
  }

  /** A token read as a colour: the integer 1 is Black and 2 is White. A token
      that is not an integer fails as `ToInt` does; any other integer fails
      with its own message. */
  function ToColor(t: Token): (r: Result<GibColor, GibParseException>)
    ensures r == Success(Black) <==> ToIntOrNull(t.text) == Some(1)
    ensures r == Success(White) <==> ToIntOrNull(t.text) == Some(2)
    ensures ToIntOrNull(t.text).None? ==> r == Failure(ToInt(t).error)
    ensures ToIntOrNull(t.text).Some? && ToIntOrNull(t.text).value !in {1, 2} ==>
              r == Failure(GibParseException(Some("Expected either '1' or '2' but got " + t.text), ToMarker(t)))
  {
    var n :- ToInt(t);
    if n == 1 then Success(Black)
    else if n == 2 then Success(White)
    else Failure(GibParseException(Some("Expected either '1' or '2' but got " + t.text), ToMarker(t)))
  }

  // ---------------------------------------------------------------------------
  // Game section

  /** The error a decoding carries, if it failed. */
  function ErrorOf<T>(r: Result<T, GibParseException>): Option<GibParseException>
  {
    if r.Failure? then Some(r.error) else None
  }

  /** The first error of a list of decodings, in list order. */
  function FirstError(errors: seq<Option<GibParseException>>): Option<GibParseException>
  {
    if |errors| == 0 then None
    else if errors[0].Some? then errors[0]
    else FirstError(errors[1..])
  }

  lemma FirstErrorOfFour(a: Option<GibParseException>, b: Option<GibParseException>,
                         c: Option<GibParseException>, d: Option<GibParseException>)
    ensures FirstError([a, b, c, d]) == if a.Some? then a else if b.Some? then b else if c.Some? then c else d
  {
    assert [a, b, c, d][1..] == [b, c, d];
    assert [b, c, d][1..] == [c, d];
    assert [c, d][1..] == [d];
    assert [d][1..] == [];
    assert FirstError([d]) == d;
    assert FirstError([c, d]) == if c.Some? then c else d;
    assert FirstError([b, c, d]) == if b.Some? then b else if c.Some? then c else d;
  }

  /** The decodings of a stone's tokens, in the order the source performs them. */
  function MoveTokenErrors(n: GamePropertyNode): seq<Option<GibParseException>>
    requires n.MoveNode?
  {
    [ErrorOf(ToInt(n.moveNumber)), ErrorOf(ToColor(n.player)), ErrorOf(ToInt(n.x)), ErrorOf(ToInt(n.y))]
  }

  /** One game node: STO, INI and SKI nodes give one property each, decoded
      strictly; any other node gives none. A stone's tokens are decoded in the
      order move number, player, x, y, and the first failure is reported. */
  function ExtractGameProperty(n: GamePropertyNode): (r: Result<Option<GibGameProperty>, GibParseException>)
    ensures n.OtherNode? ==> r == Success(None)
    ensures !n.OtherNode? && r.Success? ==> r.value.Some?
    ensures n.MoveNode? ==> ErrorOf(r) == FirstError(MoveTokenErrors(n))
    ensures n.MoveNode? ==> (r.Success? <==>
              ToInt(n.moveNumber).Success? && ToColor(n.player).Success? &&
              ToInt(n.x).Success? && ToInt(n.y).Success?)
    ensures n.MoveNode? && r.Success? ==>
              r.value.value == STO(ToInt(n.moveNumber).value, ToColor(n.player).value,
                                   (ToInt(n.x).value, ToInt(n.y).value))
    ensures n.IniNode? ==> ErrorOf(r) == ErrorOf(ToInt(n.handicap))
    ensures n.IniNode? && r.Success? ==> r.value.value == INI(ToInt(n.handicap).value)
    ensures n.PassNode? ==> ErrorOf(r) == ErrorOf(ToInt(n.moveNumber))
    ensures n.PassNode? && r.Success? ==> r.value.value == SKI(ToInt(n.moveNumber).value)
  {
    match n
    case MoveNode(moveNumber, player, x, y) =>
      FirstErrorOfFour(ErrorOf(ToInt(moveNumber)), ErrorOf(ToColor(player)), ErrorOf(ToInt(x)), ErrorOf(ToInt(y)));
      var number :- ToInt(moveNumber);
      var color :- ToColor(player);
      var px :- ToInt(x);
      var py :- ToInt(y);
      Success(Some(STO(number, color, (px, py))))
    case IniNode(handicap) =>
      var h :- ToInt(handicap);
      Success(Some(INI(h)))
    case PassNode(moveNumber) =>
      var number :- ToInt(moveNumber);
      Success(Some(SKI(number)))
    case OtherNode =>
      Success(None)
  }

  predicate IsRecognised(n: GamePropertyNode) {
    !n.OtherNode?
  }

  /** Node `i` is the first whose extraction fails. */
  predicate FailsFirstAt(nodes: seq<GamePropertyNode>, i: int)
    requires 0 <= i < |nodes|
  {
    && ExtractGameProperty(nodes[i]).Failure?
    && forall j :: 0 <= j < i ==> ExtractGameProperty(nodes[j]).Success?
  }

  predicate AllExtract(nodes: seq<GamePropertyNode>) {
    forall i :: 0 <= i < |nodes| ==> ExtractGameProperty(nodes[i]).Success?
  }

  /** `props` are the properties extracted from `nodes`, one for one. */
  predicate PropertiesOf(nodes: seq<GamePropertyNode>, props: seq<GibGameProperty>) {
    && |props| == |nodes|
    && forall k :: 0 <= k < |nodes| ==> ExtractGameProperty(nodes[k]) == Success(Some(props[k]))
  }

  lemma PropertiesOfCons(n: GamePropertyNode, p: GibGameProperty,
                         nodes: seq<GamePropertyNode>, props: seq<GibGameProperty>)
    requires ExtractGameProperty(n) == Success(Some(p))
    requires PropertiesOf(nodes, props)
    ensures PropertiesOf([n] + nodes, [p] + props)
  {
    var ns, ps := [n] + nodes, [p] + props;
    forall k | 0 <= k < |ns| ensures ExtractGameProperty(ns[k]) == Success(Some(ps[k])) {
      if k > 0 {
        assert ns[k] == nodes[k - 1] && ps[k] == props[k - 1];
      }
    }
  }

  /** The game section: the properties of the recognised nodes in their
      order, or an error when some node fails. */
  function ExtractGame(nodes: seq<GamePropertyNode>): (r: Result<GibGame, GibParseException>)
    ensures r.Success? <==> AllExtract(nodes)
    ensures r.Success? ==> PropertiesOf(Text.Filter(nodes, IsRecognised), r.value.properties)
  {
    if |nodes| == 0 then
      Success(GibGame([]))
    else
      match ExtractGameProperty(nodes[0])
      case Failure(e) => Failure(e)
      case Success(p) =>
        match ExtractGame(nodes[1..])
        case Failure(e) =>
          assert !AllExtract(nodes) by {
            var i :| 0 <= i < |nodes[1..]| && ExtractGameProperty(nodes[1..][i]).Failure?;
            assert nodes[i + 1] == nodes[1..][i];
          }
          Failure(e)
        case Success(rest) =>
          var recognised := Text.Filter(nodes[1..], IsRecognised);
          Text.FilterCons(nodes, IsRecognised);
          if p.Some? then
            PropertiesOfCons(nodes[0], p.value, recognised, rest.properties);
            Success(GibGame([p.value] + rest.properties))
          else
            Success(GibGame(rest.properties))
  }

  /** The error of the game section is the error of its first failing node. */
  lemma {:induction false} ExtractGameFirstFailure(nodes: seq<GamePropertyNode>, i: int)
    requires 0 <= i < |nodes| && FailsFirstAt(nodes, i)
    ensures ExtractGame(nodes) == Failure(ExtractGameProperty(nodes[i]).error)
  {
    if i > 0 {
      assert nodes[1..][i - 1] == nodes[i];
      assert FailsFirstAt(nodes[1..], i - 1) by {
        forall j | 0 <= j < i - 1 ensures ExtractGameProperty(nodes[1..][j]).Success? {
          assert nodes[1..][j] == nodes[j + 1];
        }
      }
      ExtractGameFirstFailure(nodes[1..], i - 1);
    }
  }

  // ---------------------------------------------------------------------------
  // Header section

  /** The header value without its opening quote and its two closing
      characters. A missing VALUE gives "", and a VALUE shorter than three
      characters has no such range. */
  function StripValue(value: Option<string>): (r: Result<string, CrashKind>)
    ensures value.None? ==> r == Success("")
    ensures r.Failure? ==> r.error == StringIndexOutOfBounds
    ensures value.Some? ==> (r.Success? <==> |value.value| >= 3)
    ensures value.Some? && r.Success? ==>
              && |r.value| == |value.value| - 3
              && value.value == [value.value[0]] + r.value + value.value[|value.value| - 2..]
  {
    match value
    case None => Success("")
    case Some(v) =>
      if |v| < 3 then Failure(StringIndexOutOfBounds)
      else
        assert v == [v[0]] + v[1..|v| - 2] + v[|v| - 2..];
        Success(v[1..|v| - 2])
  }

  /** Stripping recovers the text between an opening character and a two-character close. */
  lemma StripValueEnclosed(open: char, content: string, close: string)
    requires |close| == 2
    ensures StripValue(Some([open] + content + close)) == Success(content)
  {
    var v := [open] + content + close;
    assert v[1..|v| - 2] == content;
  }

  /** Java's `substring` counts UTF-16 code units, `StripValue` characters.
      When the opening character and the two closing ones are each one code
      unit, the two agree: on whether the cut exists, and on what it keeps. */
  lemma StripValueAsUtf16(v: string)
    requires |v| > 0 && Text.IsBmp(v[0]) && Text.IsBmp(v[|v| - 1]) && (|v| >= 2 ==> Text.IsBmp(v[|v| - 2]))
    ensures StripValue(Some(v)).Success? <==> |Text.Utf16(v)| >= 3
    ensures StripValue(Some(v)).Success? ==>
              Text.Utf16(StripValue(Some(v)).value) == Text.Utf16(v)[1..|Text.Utf16(v)| - 2]
  {
    if |v| < 3 {
      assert forall i :: 0 <= i < |v| ==> Text.IsBmp(v[i]);
    } else {
      var mid := v[1..|v| - 2];
      var close := v[|v| - 2..];
      assert v == [v[0]] + mid + close;
      Text.Utf16Concat([v[0]] + mid, close);
      Text.Utf16Concat([v[0]], mid);
      assert Text.Utf16([v[0]]) == [v[0] as int];
      assert |Text.Utf16(close)| == 2 by {
        assert forall i :: 0 <= i < |close| ==> Text.IsBmp(close[i]);
      }
    }
  }

  /** One header property: its identifier and its stripped value. */
  function ExtractHeaderProperty(n: HeaderPropertyNode): (r: Result<(string, string), CrashKind>)
    ensures r.Success? <==> StripValue(n.value).Success?
    ensures r.Success? ==> r.value == (n.identifier, StripValue(n.value).value)
    ensures r.Failure? ==> r.error == StripValue(n.value).error
  {
    var stripped :- StripValue(n.value);
    Success((n.identifier, stripped))
  }

  predicate AllStrip(nodes: seq<HeaderPropertyNode>) {
    forall i :: 0 <= i < |nodes| ==> StripValue(nodes[i].value).Success?
  }

  /** `pairs` are the identifiers of `nodes` with their stripped values, one
      for one. */
  predicate PairsOf(nodes: seq<HeaderPropertyNode>, pairs: seq<(string, string)>) {
    && |pairs| == |nodes|
    && forall i :: 0 <= i < |nodes| ==>
         && StripValue(nodes[i].value).Success?
         && pairs[i] == (nodes[i].identifier, StripValue(nodes[i].value).value)
  }

  lemma PairsOfCons(n: HeaderPropertyNode, pair: (string, string),
                    nodes: seq<HeaderPropertyNode>, pairs: seq<(string, string)>)
    requires ExtractHeaderProperty(n) == Success(pair)
    requires PairsOf(nodes, pairs)
    ensures PairsOf([n] + nodes, [pair] + pairs)
  {
    var ns, ps := [n] + nodes, [pair] + pairs;
    forall i | 0 <= i < |ns|
      ensures StripValue(ns[i].value).Success? && ps[i] == (ns[i].identifier, StripValue(ns[i].value).value)
    {
      if i > 0 {
        assert ns[i] == nodes[i - 1] && ps[i] == pairs[i - 1];
      }
    }
  }

  /** The header pairs in order; the first value that cannot be stripped aborts. */
  function ExtractHeaderPairs(nodes: seq<HeaderPropertyNode>): (r: Result<seq<(string, string)>, CrashKind>)
    ensures r.Success? <==> AllStrip(nodes)
    ensures r.Failure? ==> r.error == StringIndexOutOfBounds
    ensures r.Success? ==> PairsOf(nodes, r.value)
  {
    if |nodes| == 0 then
      Success([])
    else
      match ExtractHeaderProperty(nodes[0])
      case Failure(e) => Failure(e)
      case Success(first) =>
        match ExtractHeaderPairs(nodes[1..])
        case Failure(e) =>
          assert !AllStrip(nodes) by {
            var i :| 0 <= i < |nodes[1..]| && StripValue(nodes[1..][i].value).Failure?;
            assert nodes[i + 1] == nodes[1..][i];
          }
          Failure(e)
        case Success(rest) =>
          PairsOfCons(nodes[0], first, nodes[1..], rest);
          assert [nodes[0]] + nodes[1..] == nodes;
          Success([first] + rest)
  }

  /** Node `i` holds the last occurrence of its identifier. */
  predicate LastOfIdentifier(nodes: seq<HeaderPropertyNode>, i: int)
    requires 0 <= i < |nodes|
  {
    forall j :: i < j < |nodes| ==> nodes[j].identifier != nodes[i].identifier
  }

  /** The last occurrence of an identifier is the last pair with that key. */
  lemma LastOfIdentifierPair(nodes: seq<HeaderPropertyNode>, pairs: seq<(string, string)>, i: int)
    requires PairsOf(nodes, pairs) && 0 <= i < |nodes| && LastOfIdentifier(nodes, i)
    ensures Text.LastOfKey(pairs, i)
  {
    forall j | i < j < |pairs| ensures pairs[j].0 != pairs[i].0 {
      assert nodes[j].identifier != nodes[i].identifier;
    }
  }

  /** The header map: one key per identifier, holding the stripped value of
      its last occurrence. */
  function ExtractHeader(nodes: seq<HeaderPropertyNode>): (r: Result<GibHeader, CrashKind>)
    ensures r.Success? <==> AllStrip(nodes)
    ensures r.Failure? ==> r.error == StringIndexOutOfBounds
    ensures r.Success? ==> forall k :: k in r.value.properties <==>
              exists i :: 0 <= i < |nodes| && nodes[i].identifier == k
    ensures r.Success? ==> forall i :: 0 <= i < |nodes| && LastOfIdentifier(nodes, i) ==>
              && nodes[i].identifier in r.value.properties
              && r.value.properties[nodes[i].identifier] == StripValue(nodes[i].value).value
  {
    match ExtractHeaderPairs(nodes)
    case Failure(e) => Failure(e)
    case Success(pairs) =>
      var m := Text.Associate(pairs);
      forall i | 0 <= i < |nodes| && LastOfIdentifier(nodes, i)
        ensures nodes[i].identifier in m && m[nodes[i].identifier] == StripValue(nodes[i].value).value
      {
        LastOfIdentifierPair(nodes, pairs, i);
      }
      forall k ensures k in m <==> exists i :: 0 <= i < |nodes| && nodes[i].identifier == k {
        if k in m {
          var i :| 0 <= i < |pairs| && pairs[i].0 == k;
          assert nodes[i].identifier == k;
        }
        if exists i :: 0 <= i < |nodes| && nodes[i].identifier == k {
          var i :| 0 <= i < |nodes| && nodes[i].identifier == k;
          assert pairs[i].0 == k;
        }
      }
      Success(GibHeader(m))
  }

  // ---------------------------------------------------------------------------
  // The whole file

  /** The record from the two sections, in the order the source works: parse
      the header, extract it, parse the game, extract it. The first failure
      aborts, and no partial record is returned. */
  function ExtractGib(header: Section<seq<HeaderPropertyNode>>, game: Section<seq<GamePropertyNode>>): (r: Result<Gib, Failure>)
    ensures header.SyntaxError? ==>
              r == Failure(ParseFailure(SyntaxErrorException(header.line, header.charPositionInLine, header.msg)))
    ensures header.Parsed? && ExtractHeader(header.tree).Failure? ==>
              r == Failure(Crash(ExtractHeader(header.tree).error))
    ensures header.Parsed? && ExtractHeader(header.tree).Success? && game.SyntaxError? ==>
              r == Failure(ParseFailure(SyntaxErrorException(game.line, game.charPositionInLine, game.msg)))
    ensures r.Success? <==>
              header.Parsed? && AllStrip(header.tree) && game.Parsed? && AllExtract(game.tree)
    ensures header.Parsed? && AllStrip(header.tree) && game.Parsed? && !AllExtract(game.tree) ==>
              r == Failure(ParseFailure(ExtractGame(game.tree).error))
    ensures r.Success? ==>
              r.value.header == ExtractHeader(header.tree).value && r.value.game == ExtractGame(game.tree).value
  {
    var headerNodes :- ParseSection(header);
    var h :- ExtractHeader(headerNodes).MapFailure(k => Crash(k));
    var gameNodes :- ParseSection(game);
    var g :- ExtractGame(gameNodes).MapFailure(e => ParseFailure(e));
    Success(Gib(h, g))
  }

  /** A parsed section's tree, or the listener's exception for its syntax error. */
  function ParseSection<T>(s: Section<T>): Result<T, Failure>
  {
    match s
    case Parsed(tree) => Success(tree)
    case SyntaxError(line, position, msg) => Failure(ParseFailure(SyntaxErrorException(line, position, msg)))
  }
}
