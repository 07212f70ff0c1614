/**
 The tokenizer of src/config_parser.cc.

 `ParseToken` is the character loop of the source over a stream with one character of push-back.
 `Scan` is the same automaton on a string, and `Reads` says without any automaton what a token looks like;
 `ScanIff` connects the two.
 */
module ConfigLexer {
  import opened Options

  datatype TokenType = Start | Normal | StartBlock | EndBlock | Comment | StatementEnd | Eof | Error

  datatype Quote = Single | Double

  /** The seven states of the source: both quotes share the constructors InQuote and InEscape. */
  datatype LexState = InitialWhitespace | InQuote(q: Quote) | InComment | InNormal | InEscape(q: Quote)

  /** One token: its type, the text stored in `*value`, and the input left unread. */
  datatype Lexeme = Lexeme(kind: TokenType, value: string, rest: string)

  function Mark(q: Quote): (c: char) {
    if q.Single? then '\'' else '"'
  }

  /** The characters that the automaton skips between tokens. */
  predicate IsBlank(c: char) {
    c == ' ' || c == '\t' || c == '\n' || c == '\r'
  }

  /** The characters that end a NORMAL token and must follow a closing quote. */
  predicate IsDelimiter(c: char) {
    c == ' ' || c == '\t' || c == '\n' || c == ';' || c == '{' || c == '}'
  }

  predicate StartsWithDelimiter(s: string) {
    s != "" && IsDelimiter(s[0])
  }

  function Scan(st: LexState, v: string, s: string): (l: Lexeme)
    ensures |l.rest| <= |s|
    ensures s != "" && !st.InNormal? ==> |l.rest| < |s|
    ensures s == "" ==> l.kind == Eof || l.kind == Error
    decreases |s|
  {
    if s == "" then Lexeme(if st.InQuote? then Error else Eof, v, "")
    else
      var c, r := s[0], s[1..];
      match st
      case InitialWhitespace =>
        if c == '{' then Lexeme(StartBlock, "{", r)
        else if c == '}' then Lexeme(EndBlock, "}", r)
        else if c == '#' then Scan(InComment, "#", r)
        else if c == '"' then Scan(InQuote(Double), "\"", r)
        else if c == '\'' then Scan(InQuote(Single), "'", r)
        else if c == ';' then Lexeme(StatementEnd, ";", r)
        else if IsBlank(c) then Scan(InitialWhitespace, v, r)
        else Scan(InNormal, v + [c], r)
      case InQuote(q) =>
        if c == Mark(q) then
          if StartsWithDelimiter(r) then Lexeme(Normal, v + [c], r)
          else Lexeme(Error, v + [c], if r == "" then "" else r[1..])
        else if c == '\\' then Scan(InEscape(q), v, r)
        else Scan(InQuote(q), v + [c], r)
      case InComment =>
        if c == '\n' || c == '\r' then Lexeme(Comment, v, r) else Scan(InComment, v + [c], r)
      case InNormal =>
        if IsDelimiter(c) then Lexeme(Normal, v, s) else Scan(InNormal, v + [c], r)
      case InEscape(q) => Scan(InQuote(q), v + [c], r)
  }

  /** The token that `ParseToken` reads into an empty string. */
  function Lex(s: string): Lexeme {
    Scan(InitialWhitespace, "", s)
  }

  /** A std::istream over a string: characters already taken, and the state of good(). */
  class Stream {
    const data: string
    var pos: nat
    var good: bool

    constructor (text: string)
      ensures Valid() && good && Rest() == text
    {
      data := text;
      pos := 0;
      good := true;
    }

    ghost predicate Valid()
      reads this
    {
      pos <= |data| && (!good ==> pos == |data|)
    }

    ghost function Rest(): string
      requires Valid()
      reads this
    {
      data[pos..]
    }

    /** Takes one character; at the end of the text it fails and yields EOF cut to a char. */
    method Get() returns (c: char)
      requires Valid()
      modifies this
      ensures Valid()
      ensures old(Rest()) != "" && old(good) ==> good && c == old(Rest())[0] && Rest() == old(Rest())[1..] && pos == old(pos) + 1
      ensures old(Rest()) == "" || !old(good) ==> !good && c == 255 as char && Rest() == "" && pos == old(pos)
    {
      if good && pos < |data| {
        c := data[pos];
        pos := pos + 1;
      } else {
        c := 255 as char;
        good := false;
      }
    }

    method Unget()
      requires Valid() && good && 0 < pos
      modifies this
      ensures Valid() && good && pos == old(pos) - 1 && Rest() == [data[pos]] + old(Rest())
    {
      pos := pos - 1;
    }
  }

  method ParseToken(input: Stream, value0: string) returns (kind: TokenType, value: string)
    requires input.Valid()
    modifies input
    ensures input.Valid()
    ensures Lexeme(kind, value, input.Rest()) == Scan(InitialWhitespace, value0, old(input.Rest()))
  {
    value := value0;
    var state := InitialWhitespace;
    while input.good
      invariant input.Valid()
      invariant Scan(state, value, input.Rest()) == Scan(InitialWhitespace, value0, old(input.Rest()))
      decreases input.good, |input.data| - input.pos
    {
      ghost var before := input.Rest();
      var c := input.Get();
      if !input.good {
        break;
      }
      assert before == [c] + input.Rest();
      match state {
        case InitialWhitespace =>
          if c == '{' {
            value := [c];
            return StartBlock, value;
          } else if c == '}' {
            value := [c];
            return EndBlock, value;
          } else if c == '#' {
            value := [c];
            state := InComment;
          } else if c == '"' {
            value := [c];
            state := InQuote(Double);
          } else if c == '\'' {
            value := [c];
            state := InQuote(Single);
          } else if c == ';' {
            value := [c];
            return StatementEnd, value;
          } else if c == ' ' || c == '\t' || c == '\n' || c == '\r' {
          } else {
            value := value + [c];
            state := InNormal;
          }
        case InQuote(q) =>
          value := value + [c];
          if c == Mark(q) {
            var next := input.Get();
            if next == ' ' || next == '\t' || next == '\n' || next == ';' || next == '{' || next == '}' {
              input.Unget();
            } else {
              return Error, value;
            }
            return Normal, value;
          } else if c == '\\' {
            value := value[..|value| - 1];
            state := InEscape(q);
          }
        case InComment =>
          if c == '\n' || c == '\r' {
            return Comment, value;
          }
          value := value + [c];
        case InNormal =>
          if c == ' ' || c == '\t' || c == '\n' || c == ';' || c == '{' || c == '}' {
            input.Unget();
            return Normal, value;
          }
          value := value + [c];
        case InEscape(q) =>
          value := value + [c];
          state := InQuote(q);
      }
    }
    if state.InQuote? {
      return Error, value;
    }
    return Eof, value;
  }

  // ---- What a token looks like, without the automaton ----

  predicate AllBlank(s: string) {
    forall i :: 0 <= i < |s| ==> IsBlank(s[i])
  }

  /** A token that can be written without quotes. */
  predicate IsWord(w: string) {
    && w != ""
    && !IsBlank(w[0]) && w[0] !in {'#', '"', '\''}
    && forall i :: 0 <= i < |w| ==> !IsDelimiter(w[i])
  }

  /** The text between two quotes with every backslash resolved; None when a bare quote or a lone
      backslash at the end makes it no such text. */
  function Unescape(q: Quote, e: string): (w: Option<string>)
    ensures w.Some? ==> |w.value| <= |e|
    ensures w.Some? && '\\' !in e ==> w.value == e && Mark(q) !in e
    ensures w.Some? && '\\' in e ==> |w.value| < |e|
  {
    if e == "" then Some("")
    else if e[0] == Mark(q) then None
    else if e[0] == '\\' then
      if |e| == 1 then None
      else
        var w := Unescape(q, e[2..]);
        if w.Some? then Some([e[1]] + w.value) else None
    else
      var w := Unescape(q, e[1..]);
      if w.Some? then Some([e[0]] + w.value) else None
  }

  function Quoted(q: Quote, w: string): string {
    [Mark(q)] + w + [Mark(q)]
  }

  /** `text` is a way to write the NORMAL token whose value is `v`. */
  ghost predicate Spells(text: string, v: string) {
    || (IsWord(text) && v == text)
    || (exists q, e: string, w: string :: text == Quoted(q, e) && Unescape(q, e) == Some(w) && v == Quoted(q, w))
  }

  function Punctuation(kind: TokenType): string {
    match kind
    case StartBlock => "{"
    case EndBlock => "}"
    case StatementEnd => ";"
    case _ => ""
  }

  /** `text` followed by `rest` is a token of type `kind` and value `v`. */
  ghost predicate Reads(text: string, rest: string, kind: TokenType, v: string) {
    match kind
    case Normal => Spells(text, v) && StartsWithDelimiter(rest)
    case Comment =>
      && 2 <= |text| && text[0] == '#' && v == text[..|text| - 1]
      && text[|text| - 1] in {'\n', '\r'} && '\n' !in v && '\r' !in v
    case StartBlock => text == Punctuation(kind) && v == text
    case EndBlock => text == Punctuation(kind) && v == text
    case StatementEnd => text == Punctuation(kind) && v == text
    case _ => false
  }

  predicate IsToken(kind: TokenType) {
    kind in {Normal, StartBlock, EndBlock, Comment, StatementEnd}
  }
}

/** Values that may be absent. */
module Options {
  datatype Option<+T> = None | Some(value: T)
}
