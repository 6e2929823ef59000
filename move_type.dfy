/** Move struct tags (`packages/core/src/moveType.ts`): a tokenizer and a
    recursive-descent parser turning `0x1::Coin::Coin<0x2::A::B, 0x3::C::D>`
    into a tree of module id, name and type arguments. */
module MoveTypes {
  import opened Common

  datatype MoveModuleId = MoveModuleId(address: string, identifier: string)

  datatype MoveType = MoveType(moduleId: MoveModuleId, name: string, typeArguments: TypeArguments)

  /** The optional `typeArguments` field: absent, rather than empty, when a
      type has no generics. */
  datatype TypeArguments = Absent | Present(args: seq<MoveType>)

  // ---------------------------------------------------------------------
  // Tokens

  datatype Token = Namespace | StartGeneric | EndGeneric | Comma | Ident(value: string)

  /** The keys of `TOKENS`, tried in this order. */
  datatype TokenKind = NamespaceKind | StartGenericKind | EndGenericKind | CommaKind | IdentKind

  const TokenOrder: seq<TokenKind> := [NamespaceKind, StartGenericKind, EndGenericKind, CommaKind, IdentKind]

  /** The regular-expression class `\w`. */
  predicate IsWordChar(c: char)
  {
    'a' <= c <= 'z' || 'A' <= c <= 'Z' || '0' <= c <= '9' || c == '_'
  }

  predicate IsWord(s: string)
  {
    |s| > 0 && forall i :: 0 <= i < |s| ==> IsWordChar(s[i])
  }

  /** The length of the match of `^\w+` (0 when there is none): the longest
      prefix made of word characters. */
  function WordRun(s: string): (n: nat)
    ensures n <= |s|
    ensures forall i :: 0 <= i < n ==> IsWordChar(s[i])
    ensures n < |s| ==> !IsWordChar(s[n])
  {
    if s != [] && IsWordChar(s[0]) then 1 + WordRun(s[1..]) else 0
  }

  /** The length of the match of one anchored `TOKENS` pattern on `s`, 0 when
      it does not match (no pattern matches the empty string). */
  function MatchLength(kind: TokenKind, s: string): (n: nat)
    ensures n <= |s|
  {
    match kind
    case NamespaceKind => if |s| >= 2 && s[0] == ':' && s[1] == ':' then 2 else 0
    case StartGenericKind => if |s| >= 1 && s[0] == '<' then 1 else 0
    case EndGenericKind => if |s| >= 1 && s[0] == '>' then 1 else 0
    case CommaKind => if |s| >= 1 && s[0] == ',' then 1 else 0
    case IdentKind => WordRun(s)
  }

  /** The token pushed for a match; only `IDENT` keeps its text. */
  function MakeToken(kind: TokenKind, text: string): Token
  {
    match kind
    case NamespaceKind => Namespace
    case StartGenericKind => StartGeneric
    case EndGenericKind => EndGeneric
    case CommaKind => Comma
    case IdentKind => Ident(text)
  }

  /** The token grammar: `::`, `<`, `>`, `,` and maximal `\w+` runs, in that
      priority; any other character (a space, a lone `:`) is skipped. */
  function Tokens(s: string): seq<Token>
    decreases |s|
  {
    if s == [] then []
    else if |s| >= 2 && s[0] == ':' && s[1] == ':' then [Namespace] + Tokens(s[2..])
    else if s[0] == '<' then [StartGeneric] + Tokens(s[1..])
    else if s[0] == '>' then [EndGeneric] + Tokens(s[1..])
    else if s[0] == ',' then [Comma] + Tokens(s[1..])
    else if IsWordChar(s[0]) then [Ident(s[..WordRun(s)])] + Tokens(s[WordRun(s)..])
    else Tokens(s[1..])
  }

  /** `tokenize`: while the buffer is not empty, try the patterns in order;
      the first that matches pushes its token and the buffer loses the match,
      and when none matches it loses one character. */
  method Tokenize(fqn: string) returns (tokens: seq<Token>)
    ensures tokens == Tokens(fqn)
  {
    var buf := fqn;
    tokens := [];
    while buf != []
      invariant tokens + Tokens(buf) == Tokens(fqn)
      decreases |buf|
    {
      ghost var before := buf;
      var i := 0;
      while i < |TokenOrder|
        invariant 0 <= i <= |TokenOrder| && buf == before
        invariant forall j :: 0 <= j < i ==> MatchLength(TokenOrder[j], buf) == 0
      {
        var n := MatchLength(TokenOrder[i], buf);
        if n > 0 {
          FirstMatch(buf, i);
          tokens := tokens + [MakeToken(TokenOrder[i], buf[..n])];
          buf := buf[n - 1..];
          assert buf[1..] == before[n..];
          break;
        }
        i := i + 1;
      }
      if i == |TokenOrder| {
        NoMatch(buf);
      }
      buf := buf[1..];
    }
  }

  lemma FirstMatch(buf: string, i: nat)
    requires i < |TokenOrder| && MatchLength(TokenOrder[i], buf) > 0
    requires forall j :: 0 <= j < i ==> MatchLength(TokenOrder[j], buf) == 0
    ensures Tokens(buf) == [MakeToken(TokenOrder[i], buf[..MatchLength(TokenOrder[i], buf)])]
                           + Tokens(buf[MatchLength(TokenOrder[i], buf)..])
  {
    if i > 0 { assert MatchLength(TokenOrder[0], buf) == 0; }
    if i > 1 { assert MatchLength(TokenOrder[1], buf) == 0; }
    if i > 2 { assert MatchLength(TokenOrder[2], buf) == 0; }
    if i > 3 { assert MatchLength(TokenOrder[3], buf) == 0; }
  }

  lemma NoMatch(buf: string)
    requires buf != []
    requires forall j :: 0 <= j < |TokenOrder| ==> MatchLength(TokenOrder[j], buf) == 0
    ensures Tokens(buf) == Tokens(buf[1..])
  {
    assert MatchLength(TokenOrder[0], buf) == 0;
    assert MatchLength(TokenOrder[1], buf) == 0;
    assert MatchLength(TokenOrder[2], buf) == 0;
    assert MatchLength(TokenOrder[3], buf) == 0;
    assert MatchLength(TokenOrder[4], buf) == 0;
  }

  /** Every identifier token carries a non-empty run of word characters. */
  lemma {:induction false} IdentsAreWords(s: string)
    ensures forall i :: 0 <= i < |Tokens(s)| && Tokens(s)[i].Ident? ==> IsWord(Tokens(s)[i].value)
    decreases |s|
  {
    if s == [] {
    } else if |s| >= 2 && s[0] == ':' && s[1] == ':' {
      IdentsAreWords(s[2..]);
    } else if s[0] == '<' || s[0] == '>' || s[0] == ',' || !IsWordChar(s[0]) {
      IdentsAreWords(s[1..]);
    } else {
      var n := WordRun(s);
      IdentsAreWords(s[n..]);
      assert Tokens(s) == [Ident(s[..n])] + Tokens(s[n..]);
    }
  }

  /** A character that starts no token is dropped: spaces, or a `:` that is
      not followed by another `:`. */
  lemma SkippedCharacter(c: char, s: string)
    requires c != '<' && c != '>' && c != ',' && !IsWordChar(c)
    requires c == ':' ==> s == [] || s[0] != ':'
    ensures Tokens([c] + s) == Tokens(s)
  {
    assert ([c] + s)[1..] == s;
  }

  // ---------------------------------------------------------------------
  // Parsing

  /** The messages `parseName` throws. */
  datatype ParseError =
    | ExpectedNamespace | MissingAddress | MissingIdentifier | MissingName
    | ExpectedStartGeneric | ExpectedEndGeneric

  /** How a token changes the generic nesting depth. */
  function Delta(t: Token): int
  {
    if t == StartGeneric then 1 else if t == EndGeneric then -1 else 0
  }

  /** Every part is shorter than `bound`. */
  predicate Shorter(parts: seq<seq<Token>>, bound: int)
  {
    forall i :: 0 <= i < |parts| ==> |parts[i]| < bound
  }

  /** `part` put in front of the first of `parts`. */
  function Glue(part: seq<Token>, parts: seq<seq<Token>>): seq<seq<Token>>
    requires |parts| > 0
  {
    [part + parts[0]] + parts[1..]
  }

  /** The type-argument split of `parseName`, from nesting depth `depth`: the
      depth moves with `<` and `>` first, and a comma then ends a part only
      at depth 0. */
  function SplitAt(ts: seq<Token>, depth: int): (r: seq<seq<Token>>)
    ensures |r| > 0
    ensures Shorter(r, |ts| + 1)
    decreases |ts|
  {
    if ts == [] then [[]]
    else
      var d := depth + Delta(ts[0]);
      if ts[0] == Comma && d == 0 then [[]] + SplitAt(ts[1..], d)
      else
        var rest := SplitAt(ts[1..], d);
        Glue([ts[0]], rest)
  }

  /** `parseName`: the header `IDENT :: IDENT :: IDENT` (checked in the
      order namespace, namespace, address, identifier, name), then an
      optional `<`…`>` whose inside is split and each part parsed. */
  function Parse(ts: seq<Token>): Result<MoveType, ParseError>
    decreases |ts|, 1
  {
    if |ts| < 2 || ts[1] != Namespace then Err(ExpectedNamespace)
    else if |ts| < 4 || ts[3] != Namespace then Err(ExpectedNamespace)
    else if !ts[0].Ident? then Err(MissingAddress)
    else if !ts[2].Ident? then Err(MissingIdentifier)
    else if |ts| < 5 || !ts[4].Ident? then Err(MissingName)
    else
      var head := MoveType(MoveModuleId(ts[0].value, ts[2].value), ts[4].value, Absent);
      if |ts| == 5 then Ok(head)
      else if ts[5] != StartGeneric then Err(ExpectedStartGeneric)
      else if ts[|ts| - 1] != EndGeneric then Err(ExpectedEndGeneric)
      else
        match ParseAll(SplitAt(ts[6..|ts| - 1], 0), |ts|)
        case Err(e) => Err(e)
        case Ok(args) => Ok(if args == [] then head else head.(typeArguments := Present(args)))
  }

  /** The parts parsed in order; the first failure is the result. `bound`
      bounds the parts' lengths, for termination only. */
  function ParseAll(parts: seq<seq<Token>>, bound: nat): (r: Result<seq<MoveType>, ParseError>)
    requires Shorter(parts, bound)
    ensures r.Ok? ==> |r.value| == |parts|
    decreases bound, 0, |parts|
  {
    if parts == [] then Ok([])
    else
      match Parse(parts[0])
      case Err(e) => Err(e)
      case Ok(t) =>
        match ParseAll(parts[1..], bound)
        case Err(e) => Err(e)
        case Ok(ts) => Ok([t] + ts)
  }

  /** `parseMoveType`. */
  function ParseMoveType(fullyQualifiedName: string): Result<MoveType, ParseError>
  {
    Parse(Tokens(fullyQualifiedName))
  }

  /** `parseName`: the header checks, then the type arguments between the
      brackets. */
  method ParseName(tokens: seq<Token>) returns (r: Result<MoveType, ParseError>)
    ensures r == Parse(tokens)
    decreases |tokens|, 1
  {
    if |tokens| < 2 || tokens[1] != Namespace {
      return Err(ExpectedNamespace);
    }
    if |tokens| < 4 || tokens[3] != Namespace {
      return Err(ExpectedNamespace);
    }
    if !tokens[0].Ident? {
      return Err(MissingAddress);
    }
    if !tokens[2].Ident? {
      return Err(MissingIdentifier);
    }
    if |tokens| < 5 || !tokens[4].Ident? {
      return Err(MissingName);
    }
    var rest := tokens[5..];
    var typeArguments: seq<MoveType> := [];
    if |rest| > 0 {
      if rest[0] != StartGeneric {
        return Err(ExpectedStartGeneric);
      }
      if rest[|rest| - 1] != EndGeneric {
        return Err(ExpectedEndGeneric);
      }
      var inner := rest[1..|rest| - 1];
      assert inner == tokens[6..|tokens| - 1];
      var args := ParseArguments(inner, |tokens|);
      if args.Err? {
        return Err(args.error);
      }
      typeArguments := args.value;
    }
    var ret := MoveType(MoveModuleId(tokens[0].value, tokens[2].value), tokens[4].value, Absent);
    if |typeArguments| > 0 {
      return Ok(ret.(typeArguments := Present(typeArguments)));
    }
    return Ok(ret);
  }

  /** The `forEach` of `parseName`: tracks the depth, and at a comma at depth
      0 parses the part collected so far; the last part is parsed after the
      loop. */
  method ParseArguments(inner: seq<Token>, ghost bound: nat) returns (r: Result<seq<MoveType>, ParseError>)
    requires |inner| < bound
    ensures r == ParseAll(SplitAt(inner, 0), bound)
    decreases bound, 0
  {
    ghost var whole := SplitAt(inner, 0);
    var typeArguments: seq<MoveType> := [];
    var parts: seq<Token> := [];
    var stackDepth := 0;
    ghost var done: seq<seq<Token>> := [];
    assert inner[0..] == inner;
    GlueEmpty(whole);
    for i := 0 to |inner|
      invariant |parts| <= i && Shorter(done, i + 1)
      invariant whole == done + Glue(parts, SplitAt(inner[i..], stackDepth))
      invariant ParseAll(done, bound) == Ok(typeArguments)
    {
      var el := inner[i];
      ghost var depth := stackDepth;
      if el == StartGeneric {
        stackDepth := stackDepth + 1;
      } else if el == EndGeneric {
        stackDepth := stackDepth - 1;
      }
      assert stackDepth == depth + Delta(el);
      ShorterGrow(done, parts, i + 1);
      if el == Comma && stackDepth == 0 {
        CommaStep(inner, i, done, parts);
        var arg := ParseName(parts);
        ParseAllSnoc(done, parts, bound);
        if arg.Err? {
          ParseAllPrefix(done + [parts], SplitAt(inner[i + 1..], 0), bound);
          return Err(arg.error);
        }
        typeArguments := typeArguments + [arg.value];
        done := done + [parts];
        parts := [];
      } else {
        TokenStep(inner, i, depth, done, parts);
        parts := parts + [el];
      }
    }
    GlueEnd(done, parts, inner[|inner|..], stackDepth);
    var arg := ParseName(parts);
    ParseAllSnoc(done, parts, bound);
    if arg.Err? {
      return Err(arg.error);
    }
    r := Ok(typeArguments + [arg.value]);
  }

  /** `parseMoveType`: tokenize, then parse. */
  method ParseMoveTypeMethod(fullyQualifiedName: string) returns (r: Result<MoveType, ParseError>)
    ensures r == ParseMoveType(fullyQualifiedName)
  {
    var tokens := Tokenize(fullyQualifiedName);
    r := ParseName(tokens);
  }

  /** One token of the split. */
  lemma SplitStep(ts: seq<Token>, depth: int)
    requires ts != []
    ensures ts[0] == Comma && depth == 0 ==> SplitAt(ts, depth) == [[]] + SplitAt(ts[1..], depth)
    ensures !(ts[0] == Comma && depth + Delta(ts[0]) == 0) ==>
      SplitAt(ts, depth) == Glue([ts[0]], SplitAt(ts[1..], depth + Delta(ts[0])))
  {}

  /** The step of the split at position `i`. */
  lemma SplitNext(ts: seq<Token>, i: nat, depth: int)
    requires i < |ts|
    ensures ts[i] == Comma && depth == 0 ==> SplitAt(ts[i..], depth) == [[]] + SplitAt(ts[i + 1..], depth)
    ensures !(ts[i] == Comma && depth + Delta(ts[i]) == 0) ==>
      SplitAt(ts[i..], depth) == Glue([ts[i]], SplitAt(ts[i + 1..], depth + Delta(ts[i])))
  {
    assert ts[i..][0] == ts[i];
    assert ts[i..][1..] == ts[i + 1..];
    SplitStep(ts[i..], depth);
  }

  /** A comma at depth 0 closes the current part. */
  lemma CommaStep(ts: seq<Token>, i: nat, done: seq<seq<Token>>, part: seq<Token>)
    requires i < |ts| && ts[i] == Comma
    ensures done + Glue(part, SplitAt(ts[i..], 0)) == (done + [part]) + Glue([], SplitAt(ts[i + 1..], 0))
    ensures done + Glue(part, SplitAt(ts[i..], 0)) == (done + [part]) + SplitAt(ts[i + 1..], 0)
  {
    SplitNext(ts, i, 0);
    GlueCut(done, part, SplitAt(ts[i + 1..], 0));
    GlueEmpty(SplitAt(ts[i + 1..], 0));
  }

  /** Any other token joins the current part. */
  lemma TokenStep(ts: seq<Token>, i: nat, depth: int, done: seq<seq<Token>>, part: seq<Token>)
    requires i < |ts| && !(ts[i] == Comma && depth + Delta(ts[i]) == 0)
    ensures done + Glue(part, SplitAt(ts[i..], depth)) ==
      done + Glue(part + [ts[i]], SplitAt(ts[i + 1..], depth + Delta(ts[i])))
  {
    SplitNext(ts, i, depth);
    GlueTwice(part, [ts[i]], SplitAt(ts[i + 1..], depth + Delta(ts[i])));
  }

  lemma ShorterGrow(done: seq<seq<Token>>, part: seq<Token>, n: nat)
    requires Shorter(done, n) && |part| < n
    ensures Shorter(done, n + 1) && Shorter(done + [part], n + 1)
  {}

  lemma GlueCut(done: seq<seq<Token>>, part: seq<Token>, parts: seq<seq<Token>>)
    ensures done + Glue(part, [[]] + parts) == (done + [part]) + parts
    ensures |parts| > 0 ==> done + Glue(part, [[]] + parts) == (done + [part]) + Glue([], parts)
  {
    assert part + ([[]] + parts)[0] == part;
    assert ([[]] + parts)[1..] == parts;
    if |parts| > 0 {
      GlueEmpty(parts);
    }
  }

  lemma GlueEnd(done: seq<seq<Token>>, part: seq<Token>, empty: seq<Token>, depth: int)
    requires empty == []
    ensures done + Glue(part, SplitAt(empty, depth)) == done + [part]
  {
    assert part + [] == part;
  }

  lemma GlueEmpty(parts: seq<seq<Token>>)
    requires |parts| > 0
    ensures Glue([], parts) == parts
  {
    assert [] + parts[0] == parts[0];
  }

  lemma GlueTwice(a: seq<Token>, b: seq<Token>, parts: seq<seq<Token>>)
    requires |parts| > 0
    ensures Glue(a, Glue(b, parts)) == Glue(a + b, parts)
  {
    assert a + (b + parts[0]) == (a + b) + parts[0];
  }

  /** Parsing one more part: the earlier failure wins, then the new one. */
  lemma ParseAllSnoc(parts: seq<seq<Token>>, p: seq<Token>, bound: nat)
    requires Shorter(parts, bound)
    requires |p| < bound
    ensures Shorter(parts + [p], bound)
    ensures ParseAll(parts + [p], bound) ==
      match ParseAll(parts, bound)
      case Err(e) => Err(e)
      case Ok(ts) => (match Parse(p) case Err(e) => Err(e) case Ok(t) => Ok(ts + [t]))
  {
    ParseAllPrefix(parts, [p], bound);
    assert [p][0] == p && [p][1..] == [];
    match Parse(p)
    case Err(e) =>
    case Ok(t) =>
      assert [t] + [] == [t];
      assert ParseAll([p], bound) == Ok([t]);
  }

  /** Once a prefix of the parts fails, so does the whole list, with the
      same error; otherwise the results are concatenated. */
  lemma {:induction false} ParseAllPrefix(a: seq<seq<Token>>, b: seq<seq<Token>>, bound: nat)
    requires Shorter(a + b, bound)
    ensures Shorter(a, bound) && Shorter(b, bound)
    ensures ParseAll(a + b, bound) ==
      match ParseAll(a, bound)
      case Err(e) => Err(e)
      case Ok(ts) => (match ParseAll(b, bound) case Err(e) => Err(e) case Ok(us) => Ok(ts + us))
    decreases |a|
  {
    if a == [] {
      assert a + b == b;
      match ParseAll(b, bound)
      case Err(e) =>
      case Ok(us) => assert [] + us == us;
    } else {
      assert (a + b)[0] == a[0];
      assert (a + b)[1..] == a[1..] + b;
      ParseAllPrefix(a[1..], b, bound);
      match Parse(a[0])
      case Err(e) =>
      case Ok(t) =>
        match ParseAll(a[1..], bound)
        case Err(e) =>
        case Ok(ts) =>
          match ParseAll(b, bound)
          case Err(e) =>
          case Ok(us) =>
            assert [t] + (ts + us) == ([t] + ts) + us;
    }
  }

  /** Parts that each parse give the list of their results. */
  lemma {:induction false} ParseAllEach(parts: seq<seq<Token>>, bound: nat, ts: seq<MoveType>)
    requires Shorter(parts, bound)
    requires |parts| == |ts| && forall i :: 0 <= i < |parts| ==> Parse(parts[i]) == Ok(ts[i])
    ensures ParseAll(parts, bound) == Ok(ts)
    decreases |parts|
  {
    if parts != [] {
      ParseAllEach(parts[1..], bound, ts[1..]);
      assert ts == [ts[0]] + ts[1..];
    }
  }

  // ---------------------------------------------------------------------
  // Rendering

  function Header(t: MoveType): seq<Token>
  {
    [Ident(t.moduleId.address), Namespace, Ident(t.moduleId.identifier), Namespace, Ident(t.name)]
  }

  /** Parts separated by commas. */
  function JoinComma(parts: seq<seq<Token>>): seq<Token>
  {
    if parts == [] then []
    else if |parts| == 1 then parts[0]
    else parts[0] + [Comma] + JoinComma(parts[1..])
  }

  /** The tokens of a type: the header, then its arguments between brackets. */
  function TypeTokens(t: MoveType): seq<Token>
    decreases t
  {
    Header(t) + match t.typeArguments
      case Absent => []
      case Present(args) =>
        [StartGeneric] + JoinComma(seq(|args|, i requires 0 <= i < |args| => TypeTokens(args[i]))) + [EndGeneric]
  }

  /** The tokens of each argument, in order. */
  function ArgParts(args: seq<MoveType>): (r: seq<seq<Token>>)
    ensures |r| == |args|
  {
    seq(|args|, i requires 0 <= i < |args| => TypeTokens(args[i]))
  }

  lemma TypeTokensArgs(t: MoveType)
    requires t.typeArguments.Present?
    ensures TypeTokens(t) == Header(t) + [StartGeneric] + JoinComma(ArgParts(t.typeArguments.args)) + [EndGeneric]
  {
    var args := t.typeArguments.args;
    assert seq(|args|, i requires 0 <= i < |args| => TypeTokens(args[i])) == ArgParts(args);
  }

  /** How a token is written out; a comma is followed by a space, as in
      `0x1::Coin::Coin<0x2::A::B, 0x3::B::C>`. */
  function TokenText(t: Token): string
  {
    match t
    case Namespace => "::"
    case StartGeneric => "<"
    case EndGeneric => ">"
    case Comma => ", "
    case Ident(v) => v
  }

  function Text(ts: seq<Token>): string
  {
    if ts == [] then "" else TokenText(ts[0]) + Text(ts[1..])
  }

  /** The fully qualified name of a type. */
  function FullyQualifiedName(t: MoveType): string
  {
    Text(TypeTokens(t))
  }

  /** A type whose names are all words and whose argument lists, when
      present, are not empty: what the parser can produce. */
  predicate WellFormed(t: MoveType)
    decreases t
  {
    IsWord(t.moduleId.address) && IsWord(t.moduleId.identifier) && IsWord(t.name)
    && match t.typeArguments
       case Absent => true
       case Present(args) => |args| > 0 && forall i :: 0 <= i < |args| ==> WellFormed(args[i])
  }

  // ---------------------------------------------------------------------
  // Tokenizing the text of tokens gives them back

  /** Token sequences whose text lexes back to them: identifiers are words
      and no two identifiers are adjacent. */
  predicate Printable(ts: seq<Token>)
  {
    ts == [] ||
    ((ts[0].Ident? ==> IsWord(ts[0].value) && (|ts| > 1 ==> !ts[1].Ident?)) && Printable(ts[1..]))
  }

  lemma TextStart(ts: seq<Token>)
    requires Printable(ts)
    ensures ts != [] ==> Text(ts) != [] && (IsWordChar(Text(ts)[0]) <==> ts[0].Ident?)
  {
    if ts != [] {
      assert Text(ts) == TokenText(ts[0]) + Text(ts[1..]);
    }
  }

  /** An identifier followed by a non-word character lexes to itself. */
  lemma WordThenBoundary(w: string, rest: string)
    requires IsWord(w) && (rest == [] || !IsWordChar(rest[0]))
    ensures Tokens(w + rest) == [Ident(w)] + Tokens(rest)
  {
    var s := w + rest;
    assert forall i :: 0 <= i < |w| ==> s[i] == w[i];
    assert rest != [] ==> s[|w|] == rest[0];
    var n := WordRun(s);
    assert n == |w|;
    assert s[..n] == w;
    assert s[n..] == rest;
  }

  /** One token's text in front of a rest that does not extend it. */
  lemma LexToken(t: Token, rest: string)
    requires t.Ident? ==> IsWord(t.value) && (rest == [] || !IsWordChar(rest[0]))
    ensures Tokens(TokenText(t) + rest) == [t] + Tokens(rest)
  {
    var s := TokenText(t) + rest;
    match t
    case Namespace =>
      assert s[2..] == rest;
    case StartGeneric =>
      assert s[1..] == rest;
    case EndGeneric =>
      assert s[1..] == rest;
    case Comma =>
      assert s[1..] == [' '] + rest;
      SkippedCharacter(' ', rest);
    case Ident(w) =>
      WordThenBoundary(w, rest);
  }

  /** Tokenizing the text of printable tokens gives them back. */
  lemma {:induction false} LexText(ts: seq<Token>)
    requires Printable(ts)
    ensures Tokens(Text(ts)) == ts
  {
    if ts != [] {
      LexText(ts[1..]);
      TextStart(ts[1..]);
      LexToken(ts[0], Text(ts[1..]));
      assert ts == [ts[0]] + ts[1..];
    }
  }

  lemma {:induction false} PrintableConcat(a: seq<Token>, b: seq<Token>)
    requires Printable(a) && Printable(b)
    requires a != [] && b != [] ==> !(a[|a| - 1].Ident? && b[0].Ident?)
    ensures Printable(a + b)
    decreases |a|
  {
    if a != [] {
      assert (a + b)[1..] == a[1..] + b;
      PrintableConcat(a[1..], b);
    } else {
      assert a + b == b;
    }
  }

  lemma {:induction false} PrintableJoin(parts: seq<seq<Token>>)
    requires forall i :: 0 <= i < |parts| ==> Printable(parts[i])
    ensures Printable(JoinComma(parts))
    decreases |parts|
  {
    if |parts| > 1 {
      var a, b := parts[0], JoinComma(parts[1..]);
      PrintableJoin(parts[1..]);
      PrintableConcat([Comma], b);
      PrintableConcat(a, [Comma] + b);
      assert a + [Comma] + b == a + ([Comma] + b);
    }
  }

  lemma {:induction false} PrintableType(t: MoveType)
    requires WellFormed(t)
    ensures Printable(TypeTokens(t))
    decreases t
  {
    var header := Header(t);
    assert Printable(header[4..]);
    assert Printable(header[3..]);
    assert Printable(header[2..]);
    assert Printable(header[1..]);
    assert Printable(header);
    match t.typeArguments
    case Absent =>
      assert TypeTokens(t) == header + [] == header;
    case Present(args) =>
      var parts := ArgParts(args);
      forall i | 0 <= i < |parts|
        ensures Printable(parts[i])
      {
        PrintableType(args[i]);
      }
      PrintableJoin(parts);
      var inside := JoinComma(parts);
      PrintableConcat(inside, [EndGeneric]);
      assert Printable([StartGeneric] + (inside + [EndGeneric]));
      TypeTokensArgs(t);
      assert TypeTokens(t) == header + ([StartGeneric] + (inside + [EndGeneric]));
      PrintableConcat(header, [StartGeneric] + (inside + [EndGeneric]));
  }

  // ---------------------------------------------------------------------
  // The split recovers the arguments

  /** Scanning `u` from depth `d`: the depth never drops below `lo`, ends at
      `lo`, and no comma is met at depth 0. */
  predicate Inside(u: seq<Token>, d: int, lo: int)
    decreases |u|
  {
    if u == [] then d == lo
    else
      var d' := d + Delta(u[0]);
      d' >= lo && !(u[0] == Comma && d' == 0) && Inside(u[1..], d', lo)
  }

  lemma {:induction false} InsideShift(u: seq<Token>, d: int, lo: int)
    requires lo >= 0 && Inside(u, d, lo)
    ensures Inside(u, d + 1, lo + 1)
    decreases |u|
  {
    if u != [] {
      InsideShift(u[1..], d + Delta(u[0]), lo);
    }
  }

  lemma {:induction false} InsideConcat(u: seq<Token>, v: seq<Token>, d: int, lo: int)
    requires Inside(u, d, lo) && Inside(v, lo, lo)
    ensures Inside(u + v, d, lo)
    decreases |u|
  {
    if u == [] {
      assert u + v == v;
    } else {
      assert (u + v)[1..] == u[1..] + v;
      InsideConcat(u[1..], v, d + Delta(u[0]), lo);
    }
  }

  lemma {:induction false} InsideClose(u: seq<Token>, d: int, lo: int)
    requires Inside(u, d, lo + 1)
    ensures Inside(u + [EndGeneric], d, lo)
    decreases |u|
  {
    if u == [] {
      assert Inside([EndGeneric][1..], lo, lo);
    } else {
      assert (u + [EndGeneric])[1..] == u[1..] + [EndGeneric];
      InsideClose(u[1..], d + Delta(u[0]), lo);
    }
  }

  lemma {:induction false} InsideJoin(parts: seq<seq<Token>>)
    requires forall i :: 0 <= i < |parts| ==> Inside(parts[i], 0, 0)
    ensures Inside(JoinComma(parts), 1, 1)
    decreases |parts|
  {
    if |parts| == 1 {
      InsideShift(parts[0], 0, 0);
    } else if |parts| > 1 {
      var a, b := parts[0], JoinComma(parts[1..]);
      InsideShift(a, 0, 0);
      InsideJoin(parts[1..]);
      assert ([Comma] + b)[1..] == b;
      InsideConcat(a, [Comma] + b, 1, 1);
      assert a + [Comma] + b == a + ([Comma] + b);
    }
  }

  lemma {:induction false} InsideType(t: MoveType)
    ensures Inside(TypeTokens(t), 0, 0)
    decreases t
  {
    var header := Header(t);
    assert Inside(header[4..], 0, 0);
    assert Inside(header[3..], 0, 0);
    assert Inside(header[2..], 0, 0);
    assert Inside(header[1..], 0, 0);
    assert Inside(header, 0, 0);
    match t.typeArguments
    case Absent =>
      assert TypeTokens(t) == header + [] == header;
    case Present(args) =>
      var parts := ArgParts(args);
      forall i | 0 <= i < |parts|
        ensures Inside(parts[i], 0, 0)
      {
        InsideType(args[i]);
      }
      InsideJoin(parts);
      var inside := JoinComma(parts);
      InsideClose(inside, 1, 0);
      assert ([StartGeneric] + (inside + [EndGeneric]))[1..] == inside + [EndGeneric];
      TypeTokensArgs(t);
      assert TypeTokens(t) == header + ([StartGeneric] + (inside + [EndGeneric]));
      InsideConcat(header, [StartGeneric] + (inside + [EndGeneric]), 0, 0);
  }

  /** A balanced run of tokens stays whole in the first part of the split. */
  lemma {:induction false} SplitInside(u: seq<Token>, rest: seq<Token>, d: int)
    requires Inside(u, d, 0)
    ensures SplitAt(u + rest, d) == Glue(u, SplitAt(rest, 0))
    decreases |u|
  {
    if u == [] {
      assert u + rest == rest;
      GlueEmpty(SplitAt(rest, 0));
    } else {
      var d' := d + Delta(u[0]);
      var S := SplitAt(rest, 0);
      var T := SplitAt(u[1..] + rest, d');
      assert T == Glue(u[1..], S) by {
        SplitInside(u[1..], rest, d');
      }
      assert SplitAt(u + rest, d) == Glue([u[0]], T) by {
        assert (u + rest)[1..] == u[1..] + rest;
        assert (u + rest)[0] == u[0];
        SplitStep(u + rest, d);
      }
      assert Glue([u[0]], Glue(u[1..], S)) == Glue(u, S) by {
        GlueTwice([u[0]], u[1..], S);
        assert [u[0]] + u[1..] == u;
      }
    }
  }

  /** Splitting parts joined by commas gives the parts back, when no part
      has a comma outside its brackets. */
  lemma {:induction false} SplitJoin(parts: seq<seq<Token>>)
    requires |parts| > 0 && forall i :: 0 <= i < |parts| ==> Inside(parts[i], 0, 0)
    ensures SplitAt(JoinComma(parts), 0) == parts
    decreases |parts|
  {
    var a := parts[0];
    if |parts| == 1 {
      SplitInside(a, [], 0);
      assert a + [] == a;
    } else {
      var b := JoinComma(parts[1..]);
      assert JoinComma(parts) == a + ([Comma] + b);
      assert SplitAt([Comma] + b, 0) == [[]] + parts[1..] by {
        SplitStep([Comma] + b, 0);
        assert ([Comma] + b)[1..] == b;
        SplitJoin(parts[1..]);
      }
      assert SplitAt(a + ([Comma] + b), 0) == Glue(a, [[]] + parts[1..]) by {
        SplitInside(a, [Comma] + b, 0);
      }
      assert Glue(a, [[]] + parts[1..]) == parts by {
        GlueCut([], a, parts[1..]);
        assert [] + Glue(a, [[]] + parts[1..]) == Glue(a, [[]] + parts[1..]);
        assert ([] + [a]) + parts[1..] == parts;
      }
    }
  }

  /** The parser inverts the tokens of a well-formed type. */
  lemma {:induction false} ParseTypeTokens(t: MoveType)
    requires WellFormed(t)
    ensures Parse(TypeTokens(t)) == Ok(t)
    decreases t
  {
    var ts := TypeTokens(t);
    match t.typeArguments
    case Absent =>
      assert ts == Header(t) + [];
    case Present(args) =>
      var parts := ArgParts(args);
      var inner := JoinComma(parts);
      assert ts == Header(t) + [StartGeneric] + inner + [EndGeneric] by {
        TypeTokensArgs(t);
      }
      assert ts[..6] == Header(t) + [StartGeneric] && ts[|ts| - 1] == EndGeneric && ts[6..|ts| - 1] == inner;
      assert ts[1] == ts[..6][1] && ts[3] == ts[..6][3] && ts[5] == ts[..6][5];
      assert ts[0] == ts[..6][0] && ts[2] == ts[..6][2] && ts[4] == ts[..6][4];
      assert SplitAt(inner, 0) == parts by {
        forall i | 0 <= i < |parts|
          ensures Inside(parts[i], 0, 0)
        {
          InsideType(args[i]);
        }
        SplitJoin(parts);
      }
      assert ParseAll(parts, |ts|) == Ok(args) by {
        forall i | 0 <= i < |parts|
          ensures Parse(parts[i]) == Ok(args[i])
        {
          ParseTypeTokens(args[i]);
        }
        ParseAllEach(parts, |ts|, args);
      }
  }

  /** Round trip: the fully qualified name of a well-formed type parses back
      to the type. */
  lemma ParseFullyQualifiedName(t: MoveType)
    requires WellFormed(t)
    ensures ParseMoveType(FullyQualifiedName(t)) == Ok(t)
  {
    PrintableType(t);
    LexText(TypeTokens(t));
    ParseTypeTokens(t);
  }

  // ---------------------------------------------------------------------
  // What the parser produces

  /** Every identifier token in `ts` is a word, as the tokenizer ensures. */
  predicate IdentsAreWordsIn(ts: seq<Token>)
  {
    forall i :: 0 <= i < |ts| && ts[i].Ident? ==> IsWord(ts[i].value)
  }

  lemma {:induction false} SplitKeepsWords(ts: seq<Token>, depth: int)
    requires IdentsAreWordsIn(ts)
    ensures forall k :: 0 <= k < |SplitAt(ts, depth)| ==> IdentsAreWordsIn(SplitAt(ts, depth)[k])
    decreases |ts|
  {
    if ts != [] {
      var d := depth + Delta(ts[0]);
      assert IdentsAreWordsIn(ts[1..]) by {
        assert forall i :: 0 <= i < |ts[1..]| ==> ts[1..][i] == ts[i + 1];
      }
      SplitKeepsWords(ts[1..], d);
      var rest := SplitAt(ts[1..], d);
      if !(ts[0] == Comma && d == 0) {
        var first := [ts[0]] + rest[0];
        assert IdentsAreWordsIn(first) by {
          assert forall i :: 1 <= i < |first| ==> first[i] == rest[0][i - 1];
        }
        assert SplitAt(ts, depth) == [first] + rest[1..];
      }
    }
  }

  /** A successful parse of tokens whose identifiers are words is well formed:
      names are words and `typeArguments` is present only when non-empty. */
  lemma {:induction false} ParseWellFormed(ts: seq<Token>)
    requires IdentsAreWordsIn(ts) && Parse(ts).Ok?
    ensures WellFormed(Parse(ts).value)
    decreases |ts|, 1
  {
    assert ts[0].Ident? && ts[2].Ident? && ts[4].Ident?;
    if |ts| > 5 {
      var inner := ts[6..|ts| - 1];
      assert IdentsAreWordsIn(inner) by {
        assert forall i :: 0 <= i < |inner| ==> inner[i] == ts[i + 6];
      }
      SplitKeepsWords(inner, 0);
      ParseAllWellFormed(SplitAt(inner, 0), |ts|);
    }
  }

  lemma {:induction false} ParseAllWellFormed(parts: seq<seq<Token>>, bound: nat)
    requires Shorter(parts, bound) && forall k :: 0 <= k < |parts| ==> IdentsAreWordsIn(parts[k])
    requires ParseAll(parts, bound).Ok?
    ensures forall k :: 0 <= k < |parts| ==> WellFormed(ParseAll(parts, bound).value[k])
    decreases bound, 0, |parts|
  {
    if parts != [] {
      ParseWellFormed(parts[0]);
      ParseAllWellFormed(parts[1..], bound);
      var r := ParseAll(parts, bound).value;
      assert r == [Parse(parts[0]).value] + ParseAll(parts[1..], bound).value;
      assert forall k :: 1 <= k < |parts| ==> r[k] == ParseAll(parts[1..], bound).value[k - 1];
    }
  }

  /** Whatever `parseMoveType` returns is well formed; with the round trip,
      the well-formed types are exactly the parser's results. */
  lemma ParsedIsWellFormed(s: string)
    requires ParseMoveType(s).Ok?
    ensures WellFormed(ParseMoveType(s).value)
  {
    IdentsAreWords(s);
    ParseWellFormed(Tokens(s));
  }

  // ---------------------------------------------------------------------
  // The written form

  /** Names separated by `, `. */
  function JoinNames(names: seq<string>): string
  {
    if names == [] then ""
    else if |names| == 1 then names[0]
    else names[0] + ", " + JoinNames(names[1..])
  }

  lemma {:induction false} TextConcat(a: seq<Token>, b: seq<Token>)
    ensures Text(a + b) == Text(a) + Text(b)
    decreases |a|
  {
    if a == [] {
      assert a + b == b;
    } else {
      assert (a + b)[0] == a[0];
      assert (a + b)[1..] == a[1..] + b;
      TextConcat(a[1..], b);
    }
  }

  lemma {:induction false} TextJoin(parts: seq<seq<Token>>)
    ensures Text(JoinComma(parts)) == JoinNames(seq(|parts|, i requires 0 <= i < |parts| => Text(parts[i])))
    decreases |parts|
  {
    var names := seq(|parts|, i requires 0 <= i < |parts| => Text(parts[i]));
    if |parts| > 1 {
      TextJoin(parts[1..]);
      assert names[1..] == seq(|parts[1..]|, i requires 0 <= i < |parts[1..]| => Text(parts[1..][i]));
      TextConcat(parts[0] + [Comma], JoinComma(parts[1..]));
      TextConcat(parts[0], [Comma]);
      assert Text([Comma]) == ", ";
    }
  }

  /** The header is written `address::identifier::name`. */
  lemma HeaderText(t: MoveType)
    ensures Text(Header(t)) == t.moduleId.address + "::" + t.moduleId.identifier + "::" + t.name
  {
    var h := Header(t);
    assert Text(h[4..]) == t.name + "" by {
      assert h[4..][1..] == [];
    }
    assert Text(h[3..]) == "::" + t.name;
    assert Text(h[2..]) == t.moduleId.identifier + ("::" + t.name);
    assert Text(h[1..]) == "::" + (t.moduleId.identifier + ("::" + t.name));
  }

  /** The arguments are written as their names separated by `, `. */
  lemma ArgsText(args: seq<MoveType>)
    ensures Text(JoinComma(ArgParts(args))) ==
      JoinNames(seq(|args|, i requires 0 <= i < |args| => FullyQualifiedName(args[i])))
  {
    var parts := ArgParts(args);
    TextJoin(parts);
    assert seq(|parts|, i requires 0 <= i < |parts| => Text(parts[i])) ==
      seq(|args|, i requires 0 <= i < |args| => FullyQualifiedName(args[i]));
  }

  lemma BracketText(h: seq<Token>, inner: seq<Token>)
    ensures Text(h + [StartGeneric] + inner + [EndGeneric]) == Text(h) + "<" + Text(inner) + ">"
  {
    TextConcat(h + [StartGeneric] + inner, [EndGeneric]);
    TextConcat(h + [StartGeneric], inner);
    TextConcat(h, [StartGeneric]);
    assert Text([StartGeneric]) == "<" && Text([EndGeneric]) == ">";
  }

  /** The written form of a type: `address::identifier::name`, then the
      arguments' names between `<` and `>`, separated by `, `. */
  lemma FullyQualifiedNameFormat(t: MoveType)
    ensures FullyQualifiedName(t) ==
      t.moduleId.address + "::" + t.moduleId.identifier + "::" + t.name
      + match t.typeArguments
        case Absent => ""
        case Present(args) => "<" + JoinNames(seq(|args|, i requires 0 <= i < |args| => FullyQualifiedName(args[i]))) + ">"
  {
    HeaderText(t);
    match t.typeArguments
    case Absent =>
      assert TypeTokens(t) == Header(t) + [] == Header(t);
    case Present(args) =>
      TypeTokensArgs(t);
      ArgsText(args);
      BracketText(Header(t), JoinComma(ArgParts(args)));
  }

  // ---------------------------------------------------------------------
  // The shapes of the test suite's cases

  function Simple(address: string, identifier: string, name: string): MoveType
  {
    MoveType(MoveModuleId(address, identifier), name, Absent)
  }

  /** `0x1::Coin::Hello`: a simple tag, with no `typeArguments`. */
  lemma ParsesSimple(address: string, identifier: string, name: string)
    requires IsWord(address) && IsWord(identifier) && IsWord(name)
    ensures ParseMoveType(address + "::" + identifier + "::" + name) == Ok(Simple(address, identifier, name))
  {
    var t := Simple(address, identifier, name);
    FullyQualifiedNameFormat(t);
    assert FullyQualifiedName(t) == address + "::" + identifier + "::" + name + "";
    assert address + "::" + identifier + "::" + name + "" == address + "::" + identifier + "::" + name;
    ParseFullyQualifiedName(t);
  }

  /** `0x1::Coin` fails on the second namespace check. */
  lemma RejectsModuleOnly(address: string, identifier: string)
    requires IsWord(address) && IsWord(identifier)
    ensures ParseMoveType(address + "::" + identifier) == Err(ExpectedNamespace)
  {
    var ts := [Ident(address), Namespace, Ident(identifier)];
    assert Printable(ts[2..]) && Printable(ts[1..]) && Printable(ts);
    assert Text(ts) == address + "::" + identifier by {
      assert Text(ts[2..]) == identifier + "" by {
        assert ts[2..][1..] == [];
      }
      assert Text(ts[1..]) == "::" + identifier;
    }
    LexText(ts);
  }

  /** `0x1::Coin::Hello<>`: empty brackets leave one empty part, which fails
      the namespace check. */
  lemma RejectsEmptyGenerics(t: MoveType)
    requires WellFormed(t) && t.typeArguments.Absent?
    ensures ParseMoveType(FullyQualifiedName(t) + "<>") == Err(ExpectedNamespace)
  {
    var ts := TypeTokens(t) + [StartGeneric, EndGeneric];
    assert Text(ts) == FullyQualifiedName(t) + "<>" by {
      TextConcat(TypeTokens(t), [StartGeneric, EndGeneric]);
      assert Text([StartGeneric, EndGeneric]) == "<>";
    }
    assert Printable(ts) by {
      PrintableType(t);
      PrintableConcat(TypeTokens(t), [StartGeneric, EndGeneric]);
    }
    LexText(ts);
    assert TypeTokens(t) == Header(t) + [];
    assert ts[1] == Namespace && ts[3] == Namespace && ts[0].Ident? && ts[2].Ident? && ts[4].Ident?;
    assert |ts| == 7 && ts[5] == StartGeneric && ts[6] == EndGeneric;
    assert ts[6..|ts| - 1] == [];
    assert ParseAll(SplitAt([], 0), |ts|) == Err(ExpectedNamespace);
  }

  /** The tokens of an unclosed generic and their text. */
  lemma UnclosedTokens(t: MoveType, u: MoveType)
    requires WellFormed(t) && WellFormed(u)
    ensures Printable(TypeTokens(t) + ([StartGeneric] + TypeTokens(u)))
    ensures Text(TypeTokens(t) + ([StartGeneric] + TypeTokens(u))) == FullyQualifiedName(t) + "<" + FullyQualifiedName(u)
  {
    TextConcat(TypeTokens(t), [StartGeneric] + TypeTokens(u));
    TextConcat([StartGeneric], TypeTokens(u));
    assert Text([StartGeneric]) == "<";
    PrintableType(t);
    PrintableType(u);
    PrintableConcat([StartGeneric], TypeTokens(u));
    PrintableConcat(TypeTokens(t), [StartGeneric] + TypeTokens(u));
  }

  /** `0x1::Coin::Hello<0x2::A::B`: a bracket that is never closed. */
  lemma RejectsUnclosedGeneric(t: MoveType, u: MoveType)
    requires WellFormed(t) && t.typeArguments.Absent? && WellFormed(u) && u.typeArguments.Absent?
    ensures ParseMoveType(FullyQualifiedName(t) + "<" + FullyQualifiedName(u)) == Err(ExpectedEndGeneric)
  {
    var ts := TypeTokens(t) + ([StartGeneric] + TypeTokens(u));
    UnclosedTokens(t, u);
    LexText(ts);
    assert TypeTokens(t) == Header(t) + [] && TypeTokens(u) == Header(u) + [];
    assert ts[5] == StartGeneric && ts[|ts| - 1] == Ident(u.name);
  }
}
