/**
 * The driver of `VxdeParser::from_file`: read the file line by line, run the declaration
 * pattern over each line, coerce each match's value text by its type name, and insert the
 * result under the variable's name. The first failed read ends the parse with that error and
 * discards everything collected so far.
 */
module Parser {
  import opened Wrappers
  import opened Values
  import opened Matcher
  import opened Text

  /** A line as `BufRead::lines` yields it: the line break is stripped, so none is left. */
  type LineText = s: string | forall i :: 0 <= i < |s| ==> s[i] != '\n'

  /** One item of `reader.lines()`: a line, or the I/O error reading it failed with. */
  datatype LineRead = Line(text: LineText) | ReadError(cause: string)

  /** The outcome of `File::open`: the error it failed with, or the lines of the file. */
  datatype Source = OpenError(cause: string) | Opened(lines: seq<LineRead>)

  /** The `io::Error` values `from_file` returns: a failure to open or read the file as it was
      raised, and the `InvalidInput` error of an unsupported type name. */
  datatype Error = Io(cause: string) | InvalidInput(message: string)

  /** `VxdeParser`: the parsed variables. */
  datatype VxdeParser = VxdeParser(variables: map<string, Value>)

  /** `get_variables`. */
  function GetVariables(p: VxdeParser): map<string, Value> {
    p.variables
  }

  // The specification: `from_file` as a function of what the file yields.

  /** The inner loop over the matches of one line, from the map `m`: coerce each value and
      insert it, the last insertion of a name winning; an unsupported type name stops it. */
  function InsertAll(m: map<string, Value>, found: seq<Captures>, floats: FloatParsers): (r: Result<map<string, Value>, Error>)
    ensures r.Err? ==> r.error.InvalidInput?
    ensures r.Ok? ==> m.Keys <= r.value.Keys
    decreases |found|
  {
    if found == [] then Ok(m)
    else
      match InsertAll(m, found[..|found| - 1], floats)
      case Err(e) => Err(e)
      case Ok(m') =>
        var c := found[|found| - 1];
        match Coerce(Keyword(c.vtype), RawValue(c), floats)
        case Err(message) => Err(InvalidInput(message))
        case Ok(v) => Ok(m'[c.name := v])
  }

  /** The outer loop over the lines, from the empty map. */
  function ParseLines(lines: seq<LineRead>, floats: FloatParsers): (r: Result<map<string, Value>, Error>)
    ensures r.Ok? ==> NoReadError(lines)
    decreases |lines|
  {
    if lines == [] then Ok(map[])
    else
      assert forall i :: 0 <= i < |lines| - 1 ==> lines[..|lines| - 1][i] == lines[i];
      match ParseLines(lines[..|lines| - 1], floats)
      case Err(e) => Err(e)
      case Ok(m) =>
        match lines[|lines| - 1]
        case ReadError(cause) => Err(Io(cause))
        case Line(text) => InsertAll(m, CapturesIter(text), floats)
  }

  /** `from_file`. */
  function Parse(source: Source, floats: FloatParsers): (r: Result<VxdeParser, Error>)
    ensures r.Ok? ==> source.Opened? && NoReadError(source.lines)
  {
    match source
    case OpenError(cause) => Err(Io(cause))
    case Opened(lines) =>
      match ParseLines(lines, floats)
      case Err(e) => Err(e)
      case Ok(m) => Ok(VxdeParser(m))
  }

  /** `from_file`, loop by loop, as the source runs it. */
  method FromFile(source: Source, floats: FloatParsers) returns (r: Result<VxdeParser, Error>)
    ensures r == Parse(source, floats)
  {
    if source.OpenError? {
      return Err(Io(source.cause));
    }
    var lines := source.lines;
    var variables: map<string, Value> := map[];
    for i := 0 to |lines|
      invariant ParseLines(lines[..i], floats) == Ok(variables)
    {
      ParseLinesStep(lines, i, variables, floats);
      match lines[i]
      case ReadError(cause) =>
        ParseLinesErrSticky(lines, i + 1, floats);
        return Err(Io(cause));
      case Line(text) =>
        var found := CapturesIter(text);
        ghost var before := variables;
        for j := 0 to |found|
          invariant InsertAll(before, found[..j], floats) == Ok(variables)
        {
          var c := found[j];
          KeywordIsTypeName(c.vtype);
          InsertAllStep(before, found, j, variables, floats);
          match Coerce(Keyword(c.vtype), RawValue(c), floats)
          case Err(message) =>
            assert false;
          case Ok(v) =>
            variables := variables[c.name := v];
        }
        assert found[..|found|] == found;
    }
    assert lines[..|lines|] == lines;
    return Ok(VxdeParser(variables));
  }

  lemma {:induction false} ParseLinesStep(lines: seq<LineRead>, i: nat, m: map<string, Value>, floats: FloatParsers)
    requires i < |lines| && ParseLines(lines[..i], floats) == Ok(m)
    ensures ParseLines(lines[..i + 1], floats) ==
      match lines[i] case ReadError(cause) => Err(Io(cause)) case Line(text) => InsertAll(m, CapturesIter(text), floats)
  {
    assert lines[..i + 1][..i] == lines[..i];
  }

  lemma {:induction false} InsertAllStep(m: map<string, Value>, found: seq<Captures>, j: nat, m': map<string, Value>, floats: FloatParsers)
    requires j < |found| && InsertAll(m, found[..j], floats) == Ok(m')
    ensures var c := found[j];
      InsertAll(m, found[..j + 1], floats) ==
        match Coerce(Keyword(c.vtype), RawValue(c), floats)
        case Err(message) => Err(InvalidInput(message))
        case Ok(v) => Ok(m'[c.name := v])
  {
    assert found[..j + 1][..j] == found[..j];
  }

  lemma {:induction false} ParseLinesErrSticky(lines: seq<LineRead>, n: nat, floats: FloatParsers)
    requires n <= |lines| && ParseLines(lines[..n], floats).Err?
    ensures ParseLines(lines, floats) == ParseLines(lines[..n], floats)
    decreases |lines| - n
  {
    if n < |lines| {
      var p := lines[..n + 1];
      assert p[..|p| - 1] == lines[..n];
      ParseLinesErrSticky(lines, n + 1, floats);
    } else {
      assert lines[..n] == lines;
    }
  }

  // Without the `_` arm: every type name the pattern admits is one `Coerce` handles.

  lemma KeywordIsTypeName(t: Tag)
    ensures Keyword(t) in TypeNames
  {
  }

  /** The value a match is stored with. */
  function Decoded(c: Captures, floats: FloatParsers): (v: Value)
    ensures Coerce(Keyword(c.vtype), RawValue(c), floats) == Ok(v)
    ensures OfType(v, Keyword(c.vtype))
  {
    KeywordIsTypeName(c.vtype);
    Coerce(Keyword(c.vtype), RawValue(c), floats).value
  }

  /** `Decoded`, as a function of the match alone. */
  function Decoder(floats: FloatParsers): Captures -> Value {
    c => Decoded(c, floats)
  }

  /** The map after inserting the matches in order, from `m`, each with the value `decode`
      gives it. */
  function Assign(m: map<string, Value>, found: seq<Captures>, decode: Captures -> Value): map<string, Value>
    decreases |found|
  {
    if found == [] then m
    else Assign(m, found[..|found| - 1], decode)[found[|found| - 1].name := decode(found[|found| - 1])]
  }

  /** The `Unsupported type` error is never raised: the inner loop always succeeds, with the
      decoded matches inserted in order. */
  lemma {:induction false} InsertAllNeverFails(m: map<string, Value>, found: seq<Captures>, floats: FloatParsers)
    ensures InsertAll(m, found, floats) == Ok(Assign(m, found, Decoder(floats)))
    decreases |found|
  {
    if found != [] {
      InsertAllNeverFails(m, found[..|found| - 1], floats);
    }
  }

  // The reference semantics: the declarations of the lines, one per line at most.

  /** The declaration a line starts with, if any. */
  function LineDeclaration(text: LineText): seq<Captures> {
    if MatchAt(text, 0).Some? then [MatchAt(text, 0).value.caps] else []
  }

  /** What `captures_iter` yields on a line is the declaration the line starts with, if any:
      a line yields `caps` exactly when, read from its start, it is a declaration with those
      captures, and a line that is no declaration yields nothing. */
  lemma {:induction false} LineGrammar(text: LineText, caps: Captures)
    ensures CapturesIter(text) == LineDeclaration(text)
    ensures caps in CapturesIter(text) <==> Declares(text, caps)
    ensures CapturesIter(text) == [] <==> forall c :: !Declares(text, c)
  {
    AtMostOneDeclarationPerLine(text);
    MatchAtIffDeclares(text, caps);
    if CapturesIter(text) == [] {
      forall c
        ensures !Declares(text, c)
      {
        MatchAtIffDeclares(text, c);
      }
    } else {
      MatchAtIffDeclares(text, MatchAt(text, 0).value.caps);
    }
  }

  predicate NoReadError(lines: seq<LineRead>) {
    forall i :: 0 <= i < |lines| ==> lines[i].Line?
  }

  /** The declarations of all lines, in file order. */
  function Declarations(lines: seq<LineRead>): seq<Captures>
    requires NoReadError(lines)
    decreases |lines|
  {
    if lines == [] then [] else Declarations(lines[..|lines| - 1]) + LineDeclaration(lines[|lines| - 1].text)
  }

  lemma {:induction false} AssignAppend(m: map<string, Value>, a: seq<Captures>, b: seq<Captures>, decode: Captures -> Value)
    ensures Assign(m, a + b, decode) == Assign(Assign(m, a, decode), b, decode)
    decreases |b|
  {
    if b != [] {
      var b' := b[..|b| - 1];
      assert (a + b)[..|a + b| - 1] == a + b';
      AssignAppend(m, a, b', decode);
    } else {
      assert a + b == a;
    }
  }

  /** When no read fails, the parse succeeds with the declarations of the lines inserted in
      file order. */
  lemma {:induction false} ParseLinesOk(lines: seq<LineRead>, floats: FloatParsers)
    requires NoReadError(lines)
    ensures ParseLines(lines, floats) == Ok(Assign(map[], Declarations(lines), Decoder(floats)))
    decreases |lines|
  {
    if lines != [] {
      var p := lines[..|lines| - 1];
      var text := lines[|lines| - 1].text;
      ParseLinesOk(p, floats);
      AtMostOneDeclarationPerLine(text);
      InsertAllNeverFails(Assign(map[], Declarations(p), Decoder(floats)), CapturesIter(text), floats);
      AssignAppend(map[], Declarations(p), LineDeclaration(text), Decoder(floats));
    }
  }

  /** The first failed read is the error of the parse. */
  lemma {:induction false} FirstReadError(lines: seq<LineRead>, i: nat, floats: FloatParsers)
    requires i < |lines| && lines[i].ReadError? && NoReadError(lines[..i])
    ensures ParseLines(lines, floats) == Err(Io(lines[i].cause))
  {
    var p := lines[..i + 1];
    assert p[..|p| - 1] == lines[..i];
    NoReadErrorSucceeds(lines[..i], floats);
    ParseLinesErrSticky(lines, i + 1, floats);
  }

  lemma {:induction false} NoReadErrorSucceeds(lines: seq<LineRead>, floats: FloatParsers)
    requires NoReadError(lines)
    ensures ParseLines(lines, floats).Ok?
  {
    ParseLinesOk(lines, floats);
  }

  /** The index of the first failed read, when some read fails. */
  lemma {:induction false} FirstReadErrorIndex(lines: seq<LineRead>) returns (i: nat)
    requires !NoReadError(lines)
    ensures i < |lines| && lines[i].ReadError? && NoReadError(lines[..i])
    decreases |lines|
  {
    if lines[0].ReadError? {
      i := 0;
    } else {
      var rest := lines[1..];
      var k :| 0 <= k < |lines| && lines[k].ReadError?;
      assert rest[k - 1] == lines[k];
      var j := FirstReadErrorIndex(rest);
      i := j + 1;
      forall t | 0 <= t < i
        ensures lines[..i][t].Line?
      {
        if t > 0 {
          assert lines[..i][t] == rest[..j][t - 1];
        }
      }
    }
  }

  /** The parse fails exactly when some read fails. */
  lemma {:induction false} FailsIffReadError(lines: seq<LineRead>, floats: FloatParsers)
    ensures ParseLines(lines, floats).Err? <==> exists i :: 0 <= i < |lines| && lines[i].ReadError?
    ensures ParseLines(lines, floats).Err? ==> ParseLines(lines, floats).error.Io?
  {
    if NoReadError(lines) {
      ParseLinesOk(lines, floats);
    } else {
      var i := FirstReadErrorIndex(lines);
      FirstReadError(lines, i, floats);
    }
  }

  /** `from_file` fails exactly when the file cannot be opened or one of its lines cannot be
      read, and then with that I/O error; on success it holds the parsed declarations. */
  lemma {:induction false} ParseFails(source: Source, floats: FloatParsers)
    ensures Parse(source, floats).Err? <==>
      source.OpenError? || exists i :: 0 <= i < |source.lines| && source.lines[i].ReadError?
    ensures Parse(source, floats).Err? ==> Parse(source, floats).error.Io?
    ensures source.OpenError? ==> Parse(source, floats) == Err(Io(source.cause))
  {
    if source.Opened? {
      FailsIffReadError(source.lines, floats);
    }
  }

  /** The names the matches declare. */
  function Names(found: seq<Captures>): set<string> {
    set c | c in found :: c.name
  }

  /** The names defined after the insertions are those defined before and those declared. */
  lemma {:induction false} AssignKeys(m: map<string, Value>, found: seq<Captures>, decode: Captures -> Value)
    ensures Assign(m, found, decode).Keys == m.Keys + Names(found)
    decreases |found|
  {
    if found != [] {
      var p := found[..|found| - 1];
      AssignKeys(m, p, decode);
      assert found == p + [found[|found| - 1]];
      assert Names(found) == Names(p) + {found[|found| - 1].name};
    }
  }

  /** A name gets the value of its last declaration: a later one overwrites an earlier one. */
  lemma {:induction false} AssignLastWins(m: map<string, Value>, found: seq<Captures>, decode: Captures -> Value, i: nat)
    requires i < |found| && forall j :: i < j < |found| ==> found[j].name != found[i].name
    ensures found[i].name in Assign(m, found, decode)
    ensures Assign(m, found, decode)[found[i].name] == decode(found[i])
    decreases |found|
  {
    if i < |found| - 1 {
      var p := found[..|found| - 1];
      assert p[i] == found[i];
      AssignLastWins(m, p, decode, i);
    }
  }

  /** A name no match declares keeps its value. */
  lemma {:induction false} AssignKeeps(m: map<string, Value>, found: seq<Captures>, decode: Captures -> Value, name: string)
    requires name in m && forall i :: 0 <= i < |found| ==> found[i].name != name
    ensures name in Assign(m, found, decode) && Assign(m, found, decode)[name] == m[name]
    decreases |found|
  {
    if found != [] {
      var p := found[..|found| - 1];
      assert forall i :: 0 <= i < |p| ==> p[i] == found[i];
      AssignKeeps(m, p, decode, name);
    }
  }

  /** After a successful parse, `get_variables` holds exactly the names declared in the file. */
  lemma VariableNames(lines: seq<LineRead>, floats: FloatParsers)
    requires NoReadError(lines)
    ensures Parse(Opened(lines), floats).Ok?
    ensures GetVariables(Parse(Opened(lines), floats).value).Keys == Names(Declarations(lines))
    ensures lines == [] ==> GetVariables(Parse(Opened(lines), floats).value) == map[]
  {
    ParseLinesOk(lines, floats);
    AssignKeys(map[], Declarations(lines), Decoder(floats));
  }

  /** After a successful parse, each name holds the value of its last declaration in the file. */
  lemma LastDeclarationWins(lines: seq<LineRead>, floats: FloatParsers, i: nat)
    requires NoReadError(lines)
    requires var all := Declarations(lines);
      i < |all| && forall j :: i < j < |all| ==> all[j].name != all[i].name
    ensures Parse(Opened(lines), floats).Ok?
    ensures var all, vars := Declarations(lines), GetVariables(Parse(Opened(lines), floats).value);
      all[i].name in vars && vars[all[i].name] == Decoded(all[i], floats)
  {
    ParseLinesOk(lines, floats);
    AssignLastWins(map[], Declarations(lines), Decoder(floats), i);
  }

  /** The matches the inner loop visits, line after line. */
  function Matches(lines: seq<LineRead>): seq<Captures>
    requires NoReadError(lines)
    decreases |lines|
  {
    if lines == [] then [] else Matches(lines[..|lines| - 1]) + CapturesIter(lines[|lines| - 1].text)
  }

  /** The matches the driver visits are the declarations of the lines, so there are at most as
      many as there are lines. */
  lemma {:induction false} MatchesAreDeclarations(lines: seq<LineRead>)
    requires NoReadError(lines)
    ensures Matches(lines) == Declarations(lines)
    ensures |Matches(lines)| <= |lines|
    decreases |lines|
  {
    if lines != [] {
      MatchesAreDeclarations(lines[..|lines| - 1]);
      AtMostOneDeclarationPerLine(lines[|lines| - 1].text);
    }
  }

  // No stored text holds a line break.

  predicate NoLineBreak(t: string) {
    forall x :: 0 <= x < |t| ==> t[x] != '\n'
  }

  /** A value that is text holds no line break. */
  predicate NoLineBreakIn(v: Value) {
    v.String? ==> NoLineBreak(v.text)
  }

  /** The raw value of a line's declaration is a trimmed part of the line. */
  lemma {:induction false} RawValueNoLineBreak(text: LineText)
    requires MatchAt(text, 0).Some?
    ensures NoLineBreak(RawValue(MatchAt(text, 0).value.caps))
  {
    var caps := MatchAt(text, 0).value.caps;
    RawValueOf(caps);
    if caps.value.Some? {
      MatchValueSpan(text);
      var e: nat, k: nat :| ValueSpan(text, e, k, RawValue(caps));
      var t := text[e + 1..k];
      forall y | 0 <= y < |t|
        ensures t[y] != '\n'
      {
        assert t[y] == text[e + 1 + y];
      }
      TrimKeepsOut(t, '\n');
    }
  }

  /** The text a match stores is its raw value. */
  lemma {:induction false} DecodedText(c: Captures, floats: FloatParsers)
    ensures Decoded(c, floats).String? ==> Decoded(c, floats).text == RawValue(c)
  {
    if Decoded(c, floats).String? {
      assert c.vtype == Tag.String;
      StringCoercion(RawValue(c), floats);
    }
  }

  lemma {:induction false} DeclarationsNoLineBreak(lines: seq<LineRead>, floats: FloatParsers)
    requires NoReadError(lines)
    ensures forall i :: 0 <= i < |Declarations(lines)| ==> NoLineBreakIn(Decoded(Declarations(lines)[i], floats))
    decreases |lines|
  {
    if lines != [] {
      var p := lines[..|lines| - 1];
      var text := lines[|lines| - 1].text;
      DeclarationsNoLineBreak(p, floats);
      var before, last := Declarations(p), LineDeclaration(text);
      if last != [] {
        RawValueNoLineBreak(text);
        DecodedText(last[0], floats);
      }
      forall i | 0 <= i < |before + last|
        ensures NoLineBreakIn(Decoded((before + last)[i], floats))
      {
        if i < |before| {
          assert (before + last)[i] == before[i];
        } else {
          assert (before + last)[i] == last[0];
        }
      }
    }
  }

  /** A property every inserted value has, and every value of the starting map, holds of every
      value afterwards. */
  lemma {:induction false} AssignKeepsProperty(m: map<string, Value>, found: seq<Captures>, decode: Captures -> Value, P: Value -> bool)
    requires forall n :: n in m ==> P(m[n])
    requires forall i :: 0 <= i < |found| ==> P(decode(found[i]))
    ensures forall n :: n in Assign(m, found, decode) ==> P(Assign(m, found, decode)[n])
    decreases |found|
  {
    if found != [] {
      var p := found[..|found| - 1];
      assert forall i :: 0 <= i < |p| ==> p[i] == found[i];
      AssignKeepsProperty(m, p, decode, P);
    }
  }

  /** After a successful parse, no text value holds a line break: every text is a trimmed part
      of one line, and lines come without their line break. */
  lemma {:induction false} NoValueHoldsLineBreak(lines: seq<LineRead>, floats: FloatParsers)
    requires NoReadError(lines)
    ensures Parse(Opened(lines), floats).Ok?
    ensures var vars := GetVariables(Parse(Opened(lines), floats).value);
      forall n :: n in vars && vars[n].String? ==> '\n' !in vars[n].text
  {
    ParseLinesOk(lines, floats);
    var all := Declarations(lines);
    DeclarationsNoLineBreak(lines, floats);
    assert forall i :: 0 <= i < |all| ==> NoLineBreakIn(Decoder(floats)(all[i]));
    AssignKeepsProperty(map[], all, Decoder(floats), NoLineBreakIn);
    var vars := GetVariables(Parse(Opened(lines), floats).value);
    forall n | n in vars && vars[n].String?
      ensures '\n' !in vars[n].text
    {
      assert NoLineBreakIn(vars[n]);
    }
  }
}
