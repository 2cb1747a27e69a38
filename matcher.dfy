/**
 * The declaration matcher: the pattern
 *
 *     (?m)^\s*([A-Za-z_][A-Za-z0-9_]*)\s*:\s*(string|i32|i64|u32|u64|f32|f64|bool|char)\s*(=\s*([^;]*))?\s*;
 *
 * written as a scanner over characters (`MatchAt`), the iteration over its matches
 * (`CapturesIter`), and the grammar the pattern denotes (`DeclarationAt`, `Declares`), with proofs
 * that the scanner accepts exactly that grammar.
 */
module Matcher {
  import opened Wrappers
  import opened Text

  /** The nine type names the pattern admits. */
  datatype Tag = String | I32 | I64 | U32 | U64 | F32 | F64 | Bool | Char

  function Keyword(t: Tag): string {
    match t
    case String => "string"
    case I32 => "i32"
    case I64 => "i64"
    case U32 => "u32"
    case U64 => "u64"
    case F32 => "f32"
    case F64 => "f64"
    case Bool => "bool"
    case Char => "char"
  }

  predicate IsIdentStart(c: char) {
    ('A' <= c <= 'Z') || ('a' <= c <= 'z') || c == '_'
  }

  predicate IsIdentChar(c: char) {
    IsIdentStart(c) || ('0' <= c <= '9')
  }

  /** `[A-Za-z_][A-Za-z0-9_]*` */
  predicate IsIdent(s: string) {
    |s| > 0 && IsIdentStart(s[0]) && forall i :: 1 <= i < |s| ==> IsIdentChar(s[i])
  }

  /** `s[i..j]` holds no `;`. */
  predicate NoSemicolonIn(s: string, i: nat, j: nat)
    requires j <= |s|
  {
    forall t :: i <= t < j ==> s[t] != ';'
  }

  /** The index just past the run of identifier characters starting at `i`. */
  function SkipIdentChars(s: string, i: nat): (j: nat)
    requires i <= |s|
    ensures i <= j <= |s|
    ensures j == |s| || !IsIdentChar(s[j])
    decreases |s| - i
  {
    if i == |s| || !IsIdentChar(s[i]) then i else SkipIdentChars(s, i + 1)
  }

  /** What `SkipIdentChars` skips is identifier characters. */
  lemma {:induction false} SkipIdentSpan(s: string, i: nat)
    requires i <= |s|
    ensures forall k :: i <= k < SkipIdentChars(s, i) ==> IsIdentChar(s[k])
    decreases |s| - i
  {
    if i < |s| && IsIdentChar(s[i]) {
      SkipIdentSpan(s, i + 1);
    }
  }

  lemma {:induction false} SkipIdentCharsExact(s: string, i: nat, j: nat)
    requires i <= j <= |s|
    requires forall k :: i <= k < j ==> IsIdentChar(s[k])
    requires j == |s| || !IsIdentChar(s[j])
    ensures SkipIdentChars(s, i) == j
    decreases j - i
  {
    if i < j {
      SkipIdentCharsExact(s, i + 1, j);
    }
  }

  /** The length of the type name of `t`. */
  function KeywordLength(t: Tag): (n: nat)
    ensures n == |Keyword(t)|
  {
    match t
    case String => 6
    case Bool => 4
    case Char => 4
    case _ => 3
  }

  /** `s` spells the type name of `t` from `i` on. */
  predicate Spells(s: string, i: nat, t: Tag) {
    i + KeywordLength(t) <= |s| &&
    match t
    case String => s[i] == 's' && s[i + 1] == 't' && s[i + 2] == 'r' && s[i + 3] == 'i' && s[i + 4] == 'n' && s[i + 5] == 'g'
    case I32 => s[i] == 'i' && s[i + 1] == '3' && s[i + 2] == '2'
    case I64 => s[i] == 'i' && s[i + 1] == '6' && s[i + 2] == '4'
    case U32 => s[i] == 'u' && s[i + 1] == '3' && s[i + 2] == '2'
    case U64 => s[i] == 'u' && s[i + 1] == '6' && s[i + 2] == '4'
    case F32 => s[i] == 'f' && s[i + 1] == '3' && s[i + 2] == '2'
    case F64 => s[i] == 'f' && s[i + 1] == '6' && s[i + 2] == '4'
    case Bool => s[i] == 'b' && s[i + 1] == 'o' && s[i + 2] == 'o' && s[i + 3] == 'l'
    case Char => s[i] == 'c' && s[i + 1] == 'h' && s[i + 2] == 'a' && s[i + 3] == 'r'
  }

  /** `Spells` says that the type name of `t` is what `s` holds from `i` on. */
  lemma {:induction false} SpellsKeyword(s: string, i: nat, t: Tag)
    ensures Spells(s, i, t) <==> i + |Keyword(t)| <= |s| && s[i..i + |Keyword(t)|] == Keyword(t)
  {
    var n, w := KeywordLength(t), Keyword(t);
    if i + n <= |s| {
      var v := s[i..i + n];
      assert v[0] == s[i] && v[1] == s[i + 1] && v[2] == s[i + 2];
      if n == 3 {
        assert Spells(s, i, t) <==> v[0] == w[0] && v[1] == w[1] && v[2] == w[2];
      } else if n == 4 {
        assert v[3] == s[i + 3];
        assert Spells(s, i, t) <==> v[0] == w[0] && v[1] == w[1] && v[2] == w[2] && v[3] == w[3];
      } else {
        assert v[3] == s[i + 3] && v[4] == s[i + 4] && v[5] == s[i + 5];
        assert Spells(s, i, t) <==> v[0] == w[0] && v[1] == w[1] && v[2] == w[2] && v[3] == w[3] && v[4] == w[4] && v[5] == w[5];
      }
    }
  }

  /** No type name is a prefix of another: they already differ in their first two letters. */
  lemma KeywordsDistinct(s: string, i: nat, t: Tag, t': Tag)
    requires Spells(s, i, t) && Spells(s, i, t')
    ensures t == t'
  {
  }

  /** The first type name of the alternation `string|i32|i64|u32|u64|f32|f64|bool|char`, tried
      left to right, that `s` spells from `i` on, if any. */
  function TagAt(s: string, i: nat): (r: Option<Tag>)
    requires i <= |s|
    ensures r.Some? ==> Spells(s, i, r.value)
  {
    if Spells(s, i, String) then Some(String)
    else if Spells(s, i, I32) then Some(I32)
    else if Spells(s, i, I64) then Some(I64)
    else if Spells(s, i, U32) then Some(U32)
    else if Spells(s, i, U64) then Some(U64)
    else if Spells(s, i, F32) then Some(F32)
    else if Spells(s, i, F64) then Some(F64)
    else if Spells(s, i, Bool) then Some(Bool)
    else if Spells(s, i, Char) then Some(Char)
    else None
  }

  /** Whatever type name `s` spells from `i` on is the one `TagAt` finds: since no type name
      is a prefix of another, the order of the alternatives does not matter. */
  lemma {:induction false} TagAtComplete(s: string, i: nat, t: Tag)
    requires i <= |s| && Spells(s, i, t)
    ensures TagAt(s, i) == Some(t)
  {
    var r := TagAt(s, i);
    assert r.Some?;
    KeywordsDistinct(s, i, t, r.value);
  }

  /** The first `;` at or after `i`. */
  function FindSemicolon(s: string, i: nat): (r: Option<nat>)
    requires i <= |s|
    ensures r.Some? ==> i <= r.value < |s| && s[r.value] == ';'
    decreases |s| - i
  {
    if i == |s| then None
    else if s[i] == ';' then Some(i)
    else FindSemicolon(s, i + 1)
  }

  /** What `FindSemicolon` passes over holds no `;`. */
  lemma {:induction false} FindSemicolonSpan(s: string, i: nat)
    requires i <= |s|
    ensures FindSemicolon(s, i).Some? ==> NoSemicolonIn(s, i, FindSemicolon(s, i).value)
    ensures FindSemicolon(s, i).None? ==> NoSemicolonIn(s, i, |s|)
    decreases |s| - i
  {
    if i < |s| && s[i] != ';' {
      FindSemicolonSpan(s, i + 1);
    }
  }

  lemma {:induction false} FindSemicolonExact(s: string, i: nat, j: nat)
    requires i <= j < |s|
    requires NoSemicolonIn(s, i, j) && s[j] == ';'
    ensures FindSemicolon(s, i) == Some(j)
    decreases j - i
  {
    if i < j {
      FindSemicolonExact(s, i + 1, j);
    }
  }

  /** The pattern's groups 1 (name), 2 (type) and 4 (value text, absent without `=`). */
  datatype Captures = Captures(name: string, vtype: Tag, value: Option<string>)

  /** A match: its captures and the index just past its `;`. */
  datatype Match = Match(caps: Captures, end: nat)

  /** What the scanner reads after the name: the type, the optional value text and the end. */
  datatype Rest = Rest(vtype: Tag, value: Option<string>, end: nat)

  /** What the scanner reads after the type name: the optional value text and the end. */
  datatype Tail = Tail(value: Option<string>, end: nat)

  // The scanner. Every `\s*` of the pattern is greedy and is followed by a character that
  // whitespace does not include, and `[^;]*` is followed by `;`, so the scan never backs up.

  /** `\s*(=\s*([^;]*))?\s*;` from index `i`. */
  function ScanTerminator(s: string, i: nat): (r: Option<Tail>)
    requires i <= |s|
    ensures r.Some? ==> i < r.value.end <= |s|
  {
    var e := SkipWs(s, i);
    if e < |s| && s[e] == ';' then Some(Tail(None, e + 1))
    else if e < |s| && s[e] == '=' then
      match FindSemicolon(s, e + 1)
      case None => None
      case Some(k) =>
        SkipWsStopsAt(s, e + 1, k);
        Some(Tail(Some(s[SkipWs(s, e + 1)..k]), k + 1))
    else None
  }

  /** `\s*(string|i32|i64|u32|u64|f32|f64|bool|char)` and the terminator, from index `i`. */
  function ScanType(s: string, i: nat): (r: Option<Rest>)
    requires i <= |s|
    ensures r.Some? ==> i < r.value.end <= |s|
  {
    var d := SkipWs(s, i);
    match TagAt(s, d)
    case None => None
    case Some(t) =>
      match ScanTerminator(s, d + KeywordLength(t))
      case None => None
      case Some(tail) => Some(Rest(t, tail.value, tail.end))
  }

  /** `\s*:` and the type, from index `i`. */
  function ScanColon(s: string, i: nat): (r: Option<Rest>)
    requires i <= |s|
    ensures r.Some? ==> i < r.value.end <= |s|
  {
    var c := SkipWs(s, i);
    if c < |s| && s[c] == ':' then ScanType(s, c + 1) else None
  }

  /** The whole pattern, without its `^`, tried at index `p`. */
  function MatchAt(s: string, p: nat): (r: Option<Match>)
    requires p <= |s|
    ensures r.Some? ==> p < r.value.end <= |s|
  {
    var a := SkipWs(s, p);
    if a < |s| && IsIdentStart(s[a]) then
      var b := SkipIdentChars(s, a + 1);
      match ScanColon(s, b)
      case None => None
      case Some(rest) => Some(Match(Captures(s[a..b], rest.vtype, rest.value), rest.end))
    else None
  }

  /** `(?m)^` matches at the start of the text and just after each line break. */
  predicate IsLineStart(s: string, p: nat)
    requires p <= |s|
  {
    p == 0 || s[p - 1] == '\n'
  }

  /** The matches `captures_iter` yields from index `p` on: the leftmost position where the
      anchored pattern matches, then the search goes on from the end of that match. */
  function CapturesFrom(s: string, p: nat): (r: seq<Captures>)
    requires p <= |s|
    ensures |r| <= |s| - p
    decreases |s| - p
  {
    if p == |s| then []
    else if IsLineStart(s, p) && MatchAt(s, p).Some? then
      [MatchAt(s, p).value.caps] + CapturesFrom(s, MatchAt(s, p).value.end)
    else CapturesFrom(s, p + 1)
  }

  /** `re.captures_iter(&line)`: every match is non-empty, so there are at most as many as
      characters. */
  function CapturesIter(s: string): (r: seq<Captures>)
    ensures |r| <= |s|
  {
    CapturesFrom(s, 0)
  }

  /** The value text as the driver uses it: group 4, or empty when absent, trimmed. */
  function RawValue(c: Captures): string {
    Trim(match c.value case Some(v) => v case None => [])
  }


  // The grammar, one production per stage: `s[i..k]` is whitespace followed by the stage's
  // token, followed by what the next stage accepts. Each production is an existential over the
  // index where its token starts; the `...Via` predicates name that index.

  /** `s[e..k]` is `=`, whitespace up to `f`, the value text `v` from `f` on (no `;` in it, not
      starting with whitespace, as the greedy `\s*` in front of it leaves it), then `;`. */
  ghost predicate ValueVia(s: string, e: nat, f: nat, k: nat, v: string) {
    e < f < k <= |s| && s[e] == '=' && s[k - 1] == ';' && WsIn(s, e + 1, f) &&
    (f == k - 1 || !IsWs(s[f])) && NoSemicolonIn(s, f, k - 1) && s[f..k - 1] == v
  }

  ghost predicate ValueText(s: string, e: nat, k: nat, v: string) {
    exists f: nat :: ValueVia(s, e, f, k, v)
  }

  /** `s[e..k]` is `;` alone when there is no value, or a value text and its `;`. */
  ghost predicate EndsAt(s: string, e: nat, k: nat, value: Option<string>) {
    match value
    case None => e < |s| && s[e] == ';' && k == e + 1
    case Some(v) => ValueText(s, e, k, v)
  }

  /** `s[i..k]` is whitespace up to `e`, then what `EndsAt` accepts. */
  ghost predicate TerminatorVia(s: string, i: nat, e: nat, k: nat, value: Option<string>) {
    i <= e < k <= |s| && WsIn(s, i, e) && EndsAt(s, e, k, value)
  }

  ghost predicate TerminatorAt(s: string, i: nat, k: nat, value: Option<string>) {
    exists e: nat :: TerminatorVia(s, i, e, k, value)
  }

  /** `s[i..d]` is whitespace and the type name of `tag` starts at `d`. */
  ghost predicate TypeNameAt(s: string, i: nat, d: nat, tag: Tag) {
    i <= d && Spells(s, d, tag) && WsIn(s, i, d)
  }

  /** `s[i..k]` is whitespace, the type name of `tag` at `d`, then a terminator. */
  ghost predicate TypeVia(s: string, i: nat, d: nat, k: nat, tag: Tag, value: Option<string>) {
    TypeNameAt(s, i, d, tag) && TerminatorAt(s, d + KeywordLength(tag), k, value)
  }

  ghost predicate TypeAt(s: string, i: nat, k: nat, tag: Tag, value: Option<string>) {
    exists d: nat :: TypeVia(s, i, d, k, tag, value)
  }

  /** `s[i..k]` is whitespace, `:` at `c`, then a type. */
  ghost predicate ColonVia(s: string, i: nat, c: nat, k: nat, tag: Tag, value: Option<string>) {
    i <= c < |s| && WsIn(s, i, c) && s[c] == ':' && TypeAt(s, c + 1, k, tag, value)
  }

  ghost predicate ColonAt(s: string, i: nat, k: nat, tag: Tag, value: Option<string>) {
    exists c: nat :: ColonVia(s, i, c, k, tag, value)
  }

  /** `s[p..a]` is whitespace and `name` starts at `a`. */
  ghost predicate NameAt(s: string, p: nat, a: nat, name: string) {
    p <= a && a + |name| <= |s| && WsIn(s, p, a) && s[a..a + |name|] == name
  }

  /** `s[p..k]` is whitespace, the name of `caps` at `a`, then a colon, a type and a terminator. */
  ghost predicate DeclarationVia(s: string, p: nat, a: nat, k: nat, caps: Captures) {
    NameAt(s, p, a, caps.name) && ColonAt(s, a + |caps.name|, k, caps.vtype, caps.value)
  }

  /** `s[p..k]` is exactly one declaration with captures `caps`, its name an identifier. */
  ghost predicate DeclarationAt(s: string, p: nat, k: nat, caps: Captures) {
    IsIdent(caps.name) && exists a: nat :: DeclarationVia(s, p, a, k, caps)
  }

  /** Read from its start, the line begins with a declaration whose captures are `caps`. */
  ghost predicate Declares(line: string, caps: Captures) {
    exists k: nat :: DeclarationAt(line, 0, k, caps)
  }

  lemma {:induction false} IdentStartIsNotWs(c: char)
    ensures IsIdentStart(c) ==> !IsWs(c)
    ensures IsWs(c) ==> !IsIdentChar(c)
  {
  }

  lemma {:induction false} KeywordStartIsNotWs(t: Tag)
    ensures !IsWs(Keyword(t)[0])
  {
  }

  /** Neither the whitespace nor the value text of a value holds a `;`. */
  lemma {:induction false} ValueNoSemicolon(s: string, e: nat, f: nat, k: nat, v: string)
    requires ValueVia(s, e, f, k, v)
    ensures NoSemicolonIn(s, e + 1, k - 1)
  {
    forall t | e + 1 <= t < k - 1
      ensures s[t] != ';'
    {
      if t < f {
        assert IsWs(s[t]);
      }
    }
  }

  // What each stage of the scanner has read, as plain facts.

  lemma {:induction false} ScanTerminatorFacts(s: string, i: nat)
    requires i <= |s| && ScanTerminator(s, i).Some?
    ensures var e, r := SkipWs(s, i), ScanTerminator(s, i).value;
      e < r.end <= |s| && s[r.end - 1] == ';' &&
      (r.value.None? ==> s[e] == ';' && r.end == e + 1) &&
      (r.value.Some? ==>
        s[e] == '=' && e + 1 <= SkipWs(s, e + 1) <= r.end - 1 && FindSemicolon(s, e + 1) == Some(r.end - 1) &&
        r.value.value == s[SkipWs(s, e + 1)..r.end - 1])
  {
    var e := SkipWs(s, i);
    if s[e] == '=' {
      SkipWsStopsAt(s, e + 1, FindSemicolon(s, e + 1).value);
    }
  }

  lemma {:induction false} ScanTypeFacts(s: string, i: nat)
    requires i <= |s| && ScanType(s, i).Some?
    ensures var d, r := SkipWs(s, i), ScanType(s, i).value;
      TagAt(s, d) == Some(r.vtype) && d + KeywordLength(r.vtype) <= |s| &&
      ScanTerminator(s, d + KeywordLength(r.vtype)) == Some(Tail(r.value, r.end))
  {
  }

  lemma {:induction false} ScanColonFacts(s: string, i: nat)
    requires i <= |s| && ScanColon(s, i).Some?
    ensures var c := SkipWs(s, i);
      c < |s| && s[c] == ':' && ScanType(s, c + 1) == ScanColon(s, i)
  {
  }

  lemma {:induction false} MatchAtFacts(s: string, p: nat)
    requires p <= |s| && MatchAt(s, p).Some?
    ensures var a, m := SkipWs(s, p), MatchAt(s, p).value;
      a < |s| && IsIdentStart(s[a]) &&
      var b := SkipIdentChars(s, a + 1);
      m.caps.name == s[a..b] && ScanColon(s, b) == Some(Rest(m.caps.vtype, m.caps.value, m.end))
  {
  }

  // One step of the scanner, from plain facts.

  lemma {:induction false} NoneTail(s: string, i: nat, e: nat, k: nat)
    requires i <= e < |s| && SkipWs(s, i) == e && s[e] == ';' && k == e + 1
    ensures ScanTerminator(s, i) == Some(Tail(None, k))
  {
  }

  lemma {:induction false} SomeTail(s: string, i: nat, e: nat, k: nat, v: string)
    requires i <= e < k <= |s| && SkipWs(s, i) == e && s[e] == '='
    requires SkipWs(s, e + 1) <= k - 1 && FindSemicolon(s, e + 1) == Some(k - 1) && s[SkipWs(s, e + 1)..k - 1] == v
    ensures ScanTerminator(s, i) == Some(Tail(Some(v), k))
  {
  }

  lemma {:induction false} TypeStep(s: string, i: nat, d: nat, tag: Tag, k: nat, value: Option<string>)
    requires i <= d <= |s| && SkipWs(s, i) == d && TagAt(s, d) == Some(tag)
    requires ScanTerminator(s, d + KeywordLength(tag)) == Some(Tail(value, k))
    ensures ScanType(s, i) == Some(Rest(tag, value, k))
  {
  }

  lemma {:induction false} ColonStep(s: string, i: nat, c: nat, rest: Rest)
    requires i <= c < |s| && SkipWs(s, i) == c && s[c] == ':' && ScanType(s, c + 1) == Some(rest)
    ensures ScanColon(s, i) == Some(rest)
  {
  }

  /** The scanner, started at `p`, reads whitespace up to `a` and an identifier from `a` to `b`. */
  predicate NameScanned(s: string, p: nat, a: nat, b: nat) {
    p <= a < b <= |s| && SkipWs(s, p) == a && IsIdentStart(s[a]) && SkipIdentChars(s, a + 1) == b
  }

  /** The scanner, started at `p`, reads the name of `caps` from `a` to `b`, then the rest of a
      declaration ending at `k`. */
  predicate Scanned(s: string, p: nat, a: nat, b: nat, k: nat, caps: Captures) {
    NameScanned(s, p, a, b) && s[a..b] == caps.name && ScanColon(s, b) == Some(Rest(caps.vtype, caps.value, k))
  }

  lemma {:induction false} MatchStep(s: string, p: nat, a: nat, b: nat, k: nat, caps: Captures)
    requires Scanned(s, p, a, b, k, caps)
    ensures MatchAt(s, p) == Some(Match(caps, k))
  {
  }

  // Soundness and completeness, stage by stage.

  lemma {:induction false} TerminatorSound(s: string, i: nat)
    requires i <= |s| && ScanTerminator(s, i).Some?
    ensures TerminatorAt(s, i, ScanTerminator(s, i).value.end, ScanTerminator(s, i).value.value)
  {
    ScanTerminatorFacts(s, i);
    var e, r := SkipWs(s, i), ScanTerminator(s, i).value;
    SkipWsSpan(s, i);
    if r.value.Some? {
      var f := SkipWs(s, e + 1);
      SkipWsSpan(s, e + 1);
      FindSemicolonSpan(s, e + 1);
      assert ValueVia(s, e, f, r.end, r.value.value);
    }
    assert TerminatorVia(s, i, e, r.end, r.value);
  }

  lemma {:induction false} ValueComplete(s: string, e: nat, k: nat, v: string)
    requires ValueText(s, e, k, v)
    ensures SkipWs(s, e + 1) <= k - 1 && FindSemicolon(s, e + 1) == Some(k - 1) && s[SkipWs(s, e + 1)..k - 1] == v
  {
    var f: nat :| ValueVia(s, e, f, k, v);
    ValueNoSemicolon(s, e, f, k, v);
    FindSemicolonExact(s, e + 1, k - 1);
    SkipWsExact(s, e + 1, f);
  }

  lemma {:induction false} TerminatorComplete(s: string, i: nat, k: nat, value: Option<string>)
    requires TerminatorAt(s, i, k, value)
    ensures ScanTerminator(s, i) == Some(Tail(value, k))
  {
    var e: nat :| TerminatorVia(s, i, e, k, value);
    SkipWsExact(s, i, e);
    match value {
      case None =>
        NoneTail(s, i, e, k);
      case Some(v) =>
        ValueComplete(s, e, k, v);
        SomeTail(s, i, e, k, v);
    }
  }

  lemma {:induction false} TypeNameFound(s: string, i: nat, d: nat, tag: Tag)
    requires TypeNameAt(s, i, d, tag)
    ensures SkipWs(s, i) == d && TagAt(s, d) == Some(tag)
  {
    KeywordStartIsNotWs(tag);
    SkipWsExact(s, i, d);
    TagAtComplete(s, d, tag);
  }

  lemma {:induction false} TypeSound(s: string, i: nat)
    requires i <= |s| && ScanType(s, i).Some?
    ensures TypeAt(s, i, ScanType(s, i).value.end, ScanType(s, i).value.vtype, ScanType(s, i).value.value)
  {
    ScanTypeFacts(s, i);
    var d, r := SkipWs(s, i), ScanType(s, i).value;
    SkipWsSpan(s, i);
    TerminatorSound(s, d + KeywordLength(r.vtype));
    assert TypeVia(s, i, d, r.end, r.vtype, r.value);
  }

  lemma {:induction false} TypeComplete(s: string, i: nat, k: nat, tag: Tag, value: Option<string>)
    requires TypeAt(s, i, k, tag, value)
    ensures ScanType(s, i) == Some(Rest(tag, value, k))
  {
    var d: nat :| TypeVia(s, i, d, k, tag, value);
    TypeNameFound(s, i, d, tag);
    TerminatorComplete(s, d + KeywordLength(tag), k, value);
    TypeStep(s, i, d, tag, k, value);
  }

  lemma {:induction false} ColonSound(s: string, i: nat)
    requires i <= |s| && ScanColon(s, i).Some?
    ensures ColonAt(s, i, ScanColon(s, i).value.end, ScanColon(s, i).value.vtype, ScanColon(s, i).value.value)
  {
    ScanColonFacts(s, i);
    var c, r := SkipWs(s, i), ScanColon(s, i).value;
    SkipWsSpan(s, i);
    TypeSound(s, c + 1);
    assert ColonVia(s, i, c, r.end, r.vtype, r.value);
  }

  lemma {:induction false} ColonComplete(s: string, i: nat, k: nat, tag: Tag, value: Option<string>)
    requires ColonAt(s, i, k, tag, value)
    ensures ScanColon(s, i) == Some(Rest(tag, value, k))
  {
    var c: nat :| ColonVia(s, i, c, k, tag, value);
    SkipWsExact(s, i, c);
    TypeComplete(s, c + 1, k, tag, value);
    ColonStep(s, i, c, Rest(tag, value, k));
  }

  /** A colon production starts with whitespace or with its `:`. */
  lemma {:induction false} ColonAtStart(s: string, i: nat, k: nat, tag: Tag, value: Option<string>)
    requires ColonAt(s, i, k, tag, value)
    ensures i < |s| && (IsWs(s[i]) || s[i] == ':')
  {
    var c: nat :| ColonVia(s, i, c, k, tag, value);
  }

  lemma {:induction false} NameDeclaration(s: string, p: nat, a: nat, b: nat, k: nat, caps: Captures)
    requires p <= a < b <= |s| && WsIn(s, p, a) && IsIdentStart(s[a])
    requires (forall j :: a + 1 <= j < b ==> IsIdentChar(s[j])) && caps.name == s[a..b]
    requires ColonAt(s, b, k, caps.vtype, caps.value)
    ensures DeclarationAt(s, p, k, caps)
  {
    var name := caps.name;
    assert IsIdent(name) by {
      assert name[0] == s[a];
      forall j | 1 <= j < |name| ensures IsIdentChar(name[j]) { assert name[j] == s[a + j]; }
    }
    assert DeclarationVia(s, p, a, k, caps);
  }

  /** Whatever the scanner accepts at `p` is a declaration of the grammar. */
  lemma {:induction false} MatchSound(s: string, p: nat)
    requires p <= |s| && MatchAt(s, p).Some?
    ensures DeclarationAt(s, p, MatchAt(s, p).value.end, MatchAt(s, p).value.caps)
  {
    MatchAtFacts(s, p);
    var a := SkipWs(s, p);
    var b := SkipIdentChars(s, a + 1);
    var m := MatchAt(s, p).value;
    SkipWsSpan(s, p);
    SkipIdentSpan(s, a + 1);
    ColonSound(s, b);
    NameDeclaration(s, p, a, b, m.end, m.caps);
  }

  lemma {:induction false} NameFound(s: string, p: nat, a: nat, name: string)
    requires NameAt(s, p, a, name) && IsIdent(name)
    requires a + |name| < |s| && (IsWs(s[a + |name|]) || s[a + |name|] == ':')
    ensures NameScanned(s, p, a, a + |name|)
  {
    var n := |name|;
    assert s[a] == name[0];
    IdentStartIsNotWs(s[a]);
    SkipWsExact(s, p, a);
    assert forall j :: a + 1 <= j < a + n ==> s[j] == name[j - a];
    IdentStartIsNotWs(s[a + n]);
    SkipIdentCharsExact(s, a + 1, a + n);
  }

  /** The scanner reads the name of a declaration, then the rest of it from the name's end on. */
  lemma {:induction false} NameAndColonFound(s: string, p: nat, a: nat, k: nat, caps: Captures)
    requires DeclarationVia(s, p, a, k, caps) && IsIdent(caps.name)
    ensures Scanned(s, p, a, a + |caps.name|, k, caps)
  {
    var n := |caps.name|;
    assert ColonAt(s, a + n, k, caps.vtype, caps.value);
    ColonAtStart(s, a + n, k, caps.vtype, caps.value);
    NameFound(s, p, a, caps.name);
    ColonComplete(s, a + n, k, caps.vtype, caps.value);
  }

  lemma {:induction false} MatchViaComplete(s: string, p: nat, a: nat, k: nat, caps: Captures)
    requires DeclarationVia(s, p, a, k, caps) && IsIdent(caps.name)
    ensures MatchAt(s, p) == Some(Match(caps, k))
  {
    NameAndColonFound(s, p, a, k, caps);
    MatchStep(s, p, a, a + |caps.name|, k, caps);
  }

  /** The scanner finds every declaration of the grammar at `p`, with the same captures and the
      same end. */
  lemma {:induction false} MatchComplete(s: string, p: nat, k: nat, caps: Captures)
    requires DeclarationAt(s, p, k, caps)
    ensures MatchAt(s, p) == Some(Match(caps, k))
  {
    var a: nat :| DeclarationVia(s, p, a, k, caps);
    MatchViaComplete(s, p, a, k, caps);
  }

  /** The scanner at the start of a line yields captures `caps` exactly when the line, read from
      its start, begins with a declaration whose captures are `caps`. */
  lemma {:induction false} MatchAtIffDeclares(line: string, caps: Captures)
    ensures (MatchAt(line, 0).Some? && MatchAt(line, 0).value.caps == caps) <==> Declares(line, caps)
  {
    if MatchAt(line, 0).Some? && MatchAt(line, 0).value.caps == caps {
      MatchSound(line, 0);
    }
    if Declares(line, caps) {
      var k: nat :| DeclarationAt(line, 0, k, caps);
      MatchComplete(line, 0, k, caps);
    }
  }

  lemma {:induction false} NoMatchesAfterStart(s: string, p: nat)
    requires 0 < p <= |s|
    requires forall i :: 0 <= i < |s| ==> s[i] != '\n'
    ensures CapturesFrom(s, p) == []
    decreases |s| - p
  {
    if p < |s| {
      NoMatchesAfterStart(s, p + 1);
    }
  }

  /** On a line, which holds no line break, `^` only matches at the start, so `captures_iter`
      yields at most one declaration: the one the scanner finds there. */
  lemma {:induction false} AtMostOneDeclarationPerLine(line: string)
    requires forall i :: 0 <= i < |line| ==> line[i] != '\n'
    ensures CapturesIter(line) == if MatchAt(line, 0).Some? then [MatchAt(line, 0).value.caps] else []
    ensures |CapturesIter(line)| <= 1
  {
    if line != [] {
      if MatchAt(line, 0).Some? {
        NoMatchesAfterStart(line, MatchAt(line, 0).value.end);
      } else {
        NoMatchesAfterStart(line, 1);
      }
    }
  }

  /** `e` is where the scanner found the `=` or, without a value, the `;` that ends at `end`;
      the value text, trimmed, is what lies between the `=` and that `;`, trimmed. */
  /** `s[i..j]` holds no `=`. */
  predicate NoEqualsIn(s: string, i: nat, j: nat)
    requires j <= |s|
  {
    forall t :: i <= t < j ==> s[t] != '='
  }

  lemma {:induction false} NoEqualsJoin(s: string, i: nat, j: nat, k: nat)
    requires i <= j <= k <= |s| && NoEqualsIn(s, i, j) && NoEqualsIn(s, j, k)
    ensures NoEqualsIn(s, i, k)
  {
  }

  lemma {:induction false} WsNoEquals(s: string, i: nat, j: nat)
    requires j <= |s| && WsIn(s, i, j)
    ensures NoEqualsIn(s, i, j)
  {
    forall t | i <= t < j
      ensures s[t] != '='
    {
      assert IsWs(s[t]);
    }
  }

  lemma {:induction false} SpellsNoEquals(s: string, d: nat, t: Tag)
    requires Spells(s, d, t)
    ensures NoEqualsIn(s, d, d + KeywordLength(t))
  {
  }

  lemma {:induction false} IdentNoEquals(s: string, a: nat, b: nat)
    requires a < b <= |s| && IsIdentStart(s[a]) && forall k :: a + 1 <= k < b ==> IsIdentChar(s[k])
    ensures NoEqualsIn(s, a, b)
  {
  }

  ghost predicate EndParts(s: string, e: nat, end: nat, value: Option<string>) {
    e < end <= |s| && s[end - 1] == ';' &&
    (value.None? ==> e == end - 1) &&
    (value.Some? ==> s[e] == '=' && NoSemicolonIn(s, e + 1, end - 1) && Trim(value.value) == Trim(s[e + 1..end - 1]))
  }

  lemma {:induction false} TrimAfterSpace(s: string, lo: nat, f: nat, hi: nat)
    requires lo <= f <= hi <= |s| && WsIn(s, lo, f)
    ensures Trim(s[f..hi]) == Trim(s[lo..hi])
  {
    var t := s[lo..hi];
    forall x | 0 <= x < f - lo
      ensures IsWs(t[x])
    {
      assert t[x] == s[lo + x];
    }
    assert t[f - lo..] == s[f..hi];
    TrimSkipsLeading(t, f - lo);
  }

  lemma {:induction false} SomeParts(s: string, e: nat, k: nat, v: string)
    requires e < k <= |s| && s[e] == '=' && s[k - 1] == ';' && NoSemicolonIn(s, e + 1, k - 1)
    requires e + 1 <= SkipWs(s, e + 1) <= k - 1 && v == s[SkipWs(s, e + 1)..k - 1]
    ensures EndParts(s, e, k, Some(v))
  {
    SkipWsSpan(s, e + 1);
    TrimAfterSpace(s, e + 1, SkipWs(s, e + 1), k - 1);
  }

  lemma {:induction false} TerminatorParts(s: string, i: nat) returns (e: nat)
    requires i <= |s| && ScanTerminator(s, i).Some?
    ensures i <= e && EndParts(s, e, ScanTerminator(s, i).value.end, ScanTerminator(s, i).value.value)
    ensures NoEqualsIn(s, i, e)
  {
    ScanTerminatorFacts(s, i);
    e := SkipWs(s, i);
    SkipWsSpan(s, i);
    WsNoEquals(s, i, e);
    var r := ScanTerminator(s, i).value;
    if r.value.Some? {
      FindSemicolonSpan(s, e + 1);
      SomeParts(s, e, r.end, r.value.value);
    }
  }

  lemma {:induction false} TypeParts(s: string, i: nat) returns (e: nat)
    requires i <= |s| && ScanType(s, i).Some?
    ensures i < e && EndParts(s, e, ScanType(s, i).value.end, ScanType(s, i).value.value)
    ensures NoEqualsIn(s, i, e)
  {
    ScanTypeFacts(s, i);
    var d, r := SkipWs(s, i), ScanType(s, i).value;
    var j := d + KeywordLength(r.vtype);
    e := TerminatorParts(s, j);
    SkipWsSpan(s, i);
    WsNoEquals(s, i, d);
    SpellsNoEquals(s, d, r.vtype);
    NoEqualsJoin(s, i, d, j);
    NoEqualsJoin(s, i, j, e);
    assert r.end == ScanTerminator(s, j).value.end && r.value == ScanTerminator(s, j).value.value;
  }

  lemma {:induction false} ColonParts(s: string, i: nat) returns (c: nat, e: nat)
    requires i <= |s| && ScanColon(s, i).Some?
    ensures i <= c < e && EndParts(s, e, ScanColon(s, i).value.end, ScanColon(s, i).value.value) && s[c] == ':'
    ensures NoEqualsIn(s, i, e)
  {
    ScanColonFacts(s, i);
    c := SkipWs(s, i);
    e := TypeParts(s, c + 1);
    SkipWsSpan(s, i);
    WsNoEquals(s, i, c);
    assert NoEqualsIn(s, c, c + 1);
    NoEqualsJoin(s, i, c, c + 1);
    NoEqualsJoin(s, i, c + 1, e);
  }

  /** The `:` and the `;` of what the scanner accepts, and its value text: what lies between the
      first `=` and the `;`, with no `;` in between, once trimmed. */
  lemma {:induction false} MatchParts(s: string) returns (c: nat, e: nat)
    requires MatchAt(s, 0).Some?
    ensures var m := MatchAt(s, 0).value;
      c < e && EndParts(s, e, m.end, m.caps.value) && s[c] == ':'
    ensures NoEqualsIn(s, 0, e)
  {
    MatchAtFacts(s, 0);
    var a := SkipWs(s, 0);
    var b := SkipIdentChars(s, a + 1);
    c, e := ColonParts(s, b);
    SkipWsSpan(s, 0);
    WsNoEquals(s, 0, a);
    SkipIdentSpan(s, a + 1);
    IdentNoEquals(s, a, b);
    NoEqualsJoin(s, 0, a, b);
    NoEqualsJoin(s, 0, b, e);
  }

  lemma {:induction false} RawValueOf(caps: Captures)
    ensures caps.value.None? ==> RawValue(caps) == []
    ensures caps.value.Some? ==> RawValue(caps) == Trim(caps.value.value)
  {
  }

  /** A declaration contains a `:` and ends with `;`: a line lacking either declares nothing. */
  lemma {:induction false} NoColonOrNoSemicolonNoDeclaration(line: string)
    requires forall i :: 0 <= i < |line| ==> line[i] != '\n'
    requires (forall i :: 0 <= i < |line| ==> line[i] != ':') || (forall i :: 0 <= i < |line| ==> line[i] != ';')
    ensures CapturesIter(line) == []
  {
    AtMostOneDeclarationPerLine(line);
    if MatchAt(line, 0).Some? {
      var c, e := MatchParts(line);
    }
  }

  /** `line[e]` is the first `=` of the line, `line[k]` is the first `;` after it, and `raw` is
      what lies between, trimmed. */
  ghost predicate ValueSpan(line: string, e: nat, k: nat, raw: string) {
    e < k < |line| && line[e] == '=' && NoEqualsIn(line, 0, e) && line[k] == ';' && NoSemicolonIn(line, e + 1, k) &&
    raw == Trim(line[e + 1..k])
  }

  /** The raw value of a declaration is what lies between the line's first `=` and the first `;`
      after it, trimmed; without `=` it is empty. */
  lemma {:induction false} RawValueExtraction(line: string, caps: Captures)
    requires Declares(line, caps)
    ensures caps.value.None? ==> RawValue(caps) == []
    ensures caps.value.Some? ==> exists e, k :: ValueSpan(line, e, k, RawValue(caps))
  {
    MatchAtIffDeclares(line, caps);
    RawValueOf(caps);
    if caps.value.Some? {
      MatchValueSpan(line);
    }
  }

  lemma {:induction false} EndPartsSpan(s: string, e: nat, end: nat, v: string)
    requires EndParts(s, e, end, Some(v)) && NoEqualsIn(s, 0, e)
    ensures ValueSpan(s, e, end - 1, Trim(v))
  {
  }

  lemma {:induction false} MatchValueSpan(line: string)
    requires MatchAt(line, 0).Some? && MatchAt(line, 0).value.caps.value.Some?
    ensures exists e, k :: ValueSpan(line, e, k, RawValue(MatchAt(line, 0).value.caps))
  {
    var m := MatchAt(line, 0).value;
    var c, e := MatchParts(line);
    RawValueOf(m.caps);
    EndPartsSpan(line, e, m.end, m.caps.value.value);
  }

  /** Text after the `;` that ends a declaration does not take part in matching it. */
  lemma {:induction false} TextAfterDeclarationIgnored(line: string, rest: string)
    requires MatchAt(line, 0).Some?
    ensures var end := MatchAt(line, 0).value.end;
      MatchAt(line[..end] + rest, 0) == MatchAt(line, 0)
  {
    var m := MatchAt(line, 0).value;
    MatchSound(line, 0);
    var s := line[..m.end] + rest;
    assert forall j :: 0 <= j < m.end ==> line[j] == s[j];
    DeclarationPrefix(line, s, 0, m.end, m.caps);
    MatchComplete(s, 0, m.end, m.caps);
  }

  // A production depends only on the text up to its end.

  /** `s` and `s'` agree on their first `k` characters. */
  predicate Agree(s: string, s': string, k: nat) {
    k <= |s| && k <= |s'| && forall j :: 0 <= j < k ==> s[j] == s'[j]
  }

  lemma {:induction false} SameSlice(s: string, s': string, k: nat, i: nat, j: nat)
    requires Agree(s, s', k) && i <= j <= k
    ensures s[i..j] == s'[i..j]
  {
    forall t | 0 <= t < j - i
      ensures s[i..j][t] == s'[i..j][t]
    {
      assert s[i + t] == s'[i + t];
    }
  }

  lemma {:induction false} TerminatorAtEnd(s: string, i: nat, k: nat, value: Option<string>)
    requires TerminatorAt(s, i, k, value)
    ensures i < k <= |s|
  {
  }

  lemma {:induction false} TypeAtEnd(s: string, i: nat, k: nat, tag: Tag, value: Option<string>)
    requires TypeAt(s, i, k, tag, value)
    ensures i < k <= |s|
  {
    var d: nat :| TypeVia(s, i, d, k, tag, value);
    TerminatorAtEnd(s, d + KeywordLength(tag), k, value);
  }

  lemma {:induction false} ColonAtEnd(s: string, i: nat, k: nat, tag: Tag, value: Option<string>)
    requires ColonAt(s, i, k, tag, value)
    ensures i < k <= |s|
  {
    var c: nat :| ColonVia(s, i, c, k, tag, value);
    TypeAtEnd(s, c + 1, k, tag, value);
  }

  lemma {:induction false} TerminatorPrefix(s: string, s': string, i: nat, k: nat, value: Option<string>)
    requires TerminatorAt(s, i, k, value) && Agree(s, s', k)
    ensures TerminatorAt(s', i, k, value)
  {
    var e: nat :| TerminatorVia(s, i, e, k, value);
    if value.Some? {
      var v := value.value;
      var f: nat :| ValueVia(s, e, f, k, v);
      SameSlice(s, s', k, f, k - 1);
      assert ValueVia(s', e, f, k, v);
    }
    assert TerminatorVia(s', i, e, k, value);
  }

  lemma {:induction false} SpellsPrefix(s: string, s': string, d: nat, k: nat, tag: Tag)
    requires Spells(s, d, tag) && d + KeywordLength(tag) <= k && Agree(s, s', k)
    ensures Spells(s', d, tag)
  {
  }

  lemma {:induction false} TypePrefix(s: string, s': string, i: nat, k: nat, tag: Tag, value: Option<string>)
    requires TypeAt(s, i, k, tag, value) && Agree(s, s', k)
    ensures TypeAt(s', i, k, tag, value)
  {
    var d: nat :| TypeVia(s, i, d, k, tag, value);
    TerminatorAtEnd(s, d + KeywordLength(tag), k, value);
    SpellsPrefix(s, s', d, k, tag);
    TerminatorPrefix(s, s', d + KeywordLength(tag), k, value);
    assert TypeVia(s', i, d, k, tag, value);
  }

  lemma {:induction false} ColonPrefix(s: string, s': string, i: nat, k: nat, tag: Tag, value: Option<string>)
    requires ColonAt(s, i, k, tag, value) && Agree(s, s', k)
    ensures ColonAt(s', i, k, tag, value)
  {
    var c: nat :| ColonVia(s, i, c, k, tag, value);
    TypeAtEnd(s, c + 1, k, tag, value);
    TypePrefix(s, s', c + 1, k, tag, value);
    assert ColonVia(s', i, c, k, tag, value);
  }

  lemma {:induction false} NamePrefix(s: string, s': string, p: nat, a: nat, k: nat, name: string)
    requires NameAt(s, p, a, name) && a + |name| <= k && Agree(s, s', k)
    ensures NameAt(s', p, a, name)
  {
    SameSlice(s, s', k, a, a + |name|);
  }

  lemma {:induction false} DeclarationViaPrefix(s: string, s': string, p: nat, a: nat, k: nat, caps: Captures)
    requires DeclarationVia(s, p, a, k, caps) && Agree(s, s', k)
    ensures DeclarationVia(s', p, a, k, caps)
  {
    var n := |caps.name|;
    assert ColonAt(s, a + n, k, caps.vtype, caps.value);
    ColonAtEnd(s, a + n, k, caps.vtype, caps.value);
    NamePrefix(s, s', p, a, k, caps.name);
    ColonPrefix(s, s', a + n, k, caps.vtype, caps.value);
  }

  lemma {:induction false} DeclarationPrefix(s: string, s': string, p: nat, k: nat, caps: Captures)
    requires DeclarationAt(s, p, k, caps) && Agree(s, s', k)
    ensures DeclarationAt(s', p, k, caps)
  {
    var a: nat :| DeclarationVia(s, p, a, k, caps);
    DeclarationViaPrefix(s, s', p, a, k, caps);
  }
}
