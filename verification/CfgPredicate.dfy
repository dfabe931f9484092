/** cfg predicates: the tokenizer, the recursive-descent parser and the evaluator of the migration receipt. */
module CfgPredicate {
  import opened Common

  datatype Op = All | Any | Not

  datatype Node = Atom(key: string, value: string) | Group(op: Op, args: seq<Node>)

  datatype Error = EndOfTokens | Unexpected | TrailingTokens | ValueNotString | BareIdent | NotArity

  function Name(op: Op): string {
    match op
    case All => "all"
    case Any => "any"
    case Not => "not"
  }

  predicate Reserved(token: string) {
    token == "all" || token == "any" || token == "not"
  }

  function OpNamed(token: string): Op {
    if token == "all" then All else if token == "any" then Any else Not
  }

  function StripLeft(s: string): string {
    if s != "" && s[0] == '"' then StripLeft(s[1..]) else s
  }

  function StripRight(s: string): string {
    if s != "" && s[|s| - 1] == '"' then StripRight(s[..|s| - 1]) else s
  }

  /** Python's `strip('"')`. */
  function StripQuotes(s: string): string {
    StripRight(StripLeft(s))
  }

  /** `expr` on the remaining tokens: the node and what is left after it. Some token is always consumed. */
  function ParseExpr(tokens: seq<string>): (r: Result<(Node, seq<string>), Error>)
    ensures r.Ok? ==> |r.value.1| < |tokens|
    decreases |tokens|, 0
  {
    if tokens == [] then Err(EndOfTokens)
    else
      var head, rest := tokens[0], tokens[1..];
      if Reserved(head) then
        if rest == [] then Err(EndOfTokens)
        else if rest[0] != "(" then Err(Unexpected)
        else match ParseArgs(rest[1..])
          case Err(error) => Err(error)
          case Ok((args, after)) => Ok((Group(OpNamed(head), args), after[1..]))
      else if rest != [] && rest[0] == "=" then
        if |rest| < 2 then Err(EndOfTokens)
        else if rest[1] == "" || rest[1][0] != '"' then Err(ValueNotString)
        else Ok((Atom(head, StripQuotes(rest[1])), rest[2..]))
      else Err(BareIdent)
  }

  /** The argument loop: nodes until a closing parenthesis, which is left in place. A comma after an argument is
      consumed when present and not missed when absent. */
  function ParseArgs(tokens: seq<string>): (r: Result<(seq<Node>, seq<string>), Error>)
    ensures r.Ok? ==> 0 < |r.value.1| <= |tokens| && r.value.1[0] == ")"
    decreases |tokens|, 1
  {
    if tokens != [] && tokens[0] == ")" then Ok(([], tokens))
    else match ParseExpr(tokens)
      case Err(error) => Err(error)
      case Ok((node, after)) =>
        match ParseArgs(SkipComma(after))
        case Err(error) => Err(error)
        case Ok((nodes, rest)) => Ok(([node] + nodes, rest))
  }

  function SkipComma(tokens: seq<string>): seq<string> {
    if tokens != [] && tokens[0] == "," then tokens[1..] else tokens
  }

  function Parse(tokens: seq<string>): Result<Node, Error> {
    match ParseExpr(tokens)
    case Err(error) => Err(error)
    case Ok((node, rest)) => if rest == [] then Ok(node) else Err(TrailingTokens)
  }

  /** The parser object: a token list and a position that `Eat` advances. */
  class CfgExpr {
    const tokens: seq<string>
    var pos: nat

    constructor (tokens: seq<string>)
      ensures this.tokens == tokens && pos == 0
    {
      this.tokens := tokens;
      pos := 0;
    }

    predicate InRange()
      reads this
    {
      pos <= |tokens|
    }

    function Peek(): Option<string>
      reads this
    {
      if pos < |tokens| then Some(tokens[pos]) else None
    }

    method Eat(expected: Option<string>) returns (r: Result<string, Error>)
      requires InRange()
      modifies this
      ensures InRange()
      ensures r == if old(pos) == |tokens| then Err(EndOfTokens)
        else if expected.Some? && tokens[old(pos)] != expected.value then Err(Unexpected)
        else Ok(tokens[old(pos)])
      ensures pos == if r.Ok? then old(pos) + 1 else old(pos)
    {
      if pos == |tokens| {
        return Err(EndOfTokens);
      }
      var token := tokens[pos];
      if expected.Some? && token != expected.value {
        return Err(Unexpected);
      }
      pos := pos + 1;
      return Ok(token);
    }

    /** Terminates on every token list and agrees with `ParseExpr` on what is left of it. */
    method Expr() returns (r: Result<Node, Error>)
      requires InRange()
      modifies this
      ensures InRange() && pos >= old(pos)
      ensures r.Ok? ==> pos > old(pos) && ParseExpr(tokens[old(pos)..]) == Ok((r.value, tokens[pos..]))
      ensures r.Err? ==> ParseExpr(tokens[old(pos)..]) == Err(r.error)
      decreases |tokens| - pos, 0
    {
      ghost var start := tokens[pos..];
      var head := Eat(None);
      if head.Err? {
        return Err(head.error);
      }
      assert start[1..] == tokens[pos..];
      if Reserved(head.value) {
        var open := Eat(Some("("));
        if open.Err? {
          return Err(open.error);
        }
        assert start[1..][1..] == tokens[pos..];
        var args := Arguments();
        if args.Err? {
          return Err(args.error);
        }
        ghost var closing := tokens[pos..];
        var close := Eat(Some(")"));
        assert closing[1..] == tokens[pos..];
        return Ok(Group(OpNamed(head.value), args.value));
      }
      if Peek() == Some("=") {
        var equals := Eat(Some("="));
        var value := Eat(None);
        if value.Err? {
          return Err(value.error);
        }
        assert start[1..][2..] == tokens[pos..];
        if value.value == "" || value.value[0] != '"' {
          return Err(ValueNotString);
        }
        return Ok(Atom(head.value, StripQuotes(value.value)));
      }
      return Err(BareIdent);
    }

    /** The loop that collects arguments up to the closing parenthesis. */
    method Arguments() returns (r: Result<seq<Node>, Error>)
      requires InRange()
      modifies this
      ensures InRange() && pos >= old(pos)
      ensures r.Ok? ==> Peek() == Some(")") && ParseArgs(tokens[old(pos)..]) == Ok((r.value, tokens[pos..]))
      ensures r.Err? ==> ParseArgs(tokens[old(pos)..]) == Err(r.error)
      decreases |tokens| - pos, 1
    {
      ghost var start := ParseArgs(tokens[pos..]);
      var args: seq<Node> := [];
      ContinuedNone(start);
      while Peek() != Some(")")
        invariant InRange() && old(pos) <= pos
        invariant start == Continued(args, ParseArgs(tokens[pos..]))
        decreases |tokens| - pos
      {
        ghost var before := ParseArgs(tokens[pos..]);
        var node := Expr();
        if node.Err? {
          return Err(node.error);
        }
        ghost var after := tokens[pos..];
        if Peek() == Some(",") {
          var comma := Eat(Some(","));
          assert after[1..] == tokens[pos..];
        }
        assert SkipComma(after) == tokens[pos..];
        assert before == Continued([node.value], ParseArgs(tokens[pos..]));
        ContinuedStep(args, node.value, ParseArgs(tokens[pos..]));
        args := args + [node.value];
      }
      assert ParseArgs(tokens[pos..]) == Ok(([], tokens[pos..]));
      assert args + [] == args;
      return Ok(args);
    }

    method ParseAll() returns (r: Result<Node, Error>)
      requires pos == 0
      modifies this
      ensures r == Parse(tokens)
    {
      assert tokens[0..] == tokens;
      var node := Expr();
      if node.Err? {
        return Err(node.error);
      }
      if pos != |tokens| {
        assert tokens[pos..] != [];
        return Err(TrailingTokens);
      }
      assert tokens[pos..] == [];
      return node;
    }
  }

  // ---- The language ---------------------------------------------------------

  /** The tokens spell the tree: a key that is no operator, an equals sign and a quoted value; or an operator and its
      arguments in parentheses. */
  ghost predicate Spells(tokens: seq<string>, t: Node)
    decreases t, 1
  {
    match t
    case Atom(key, value) =>
      && |tokens| == 3 && tokens[0] == key && !Reserved(key) && tokens[1] == "="
      && tokens[2] != "" && tokens[2][0] == '"' && StripQuotes(tokens[2]) == value
    case Group(op, args) =>
      && |tokens| >= 3 && tokens[0] == Name(op) && tokens[1] == "(" && tokens[|tokens| - 1] == ")"
      && SpellsArgs(tokens[2..|tokens| - 1], args)
  }

  /** Arguments one after another, none beginning with a closing parenthesis; one comma may follow each, the last
      included, and is never missed. */
  ghost predicate SpellsArgs(tokens: seq<string>, args: seq<Node>)
    decreases args, 0
  {
    if args == [] then tokens == []
    else
      exists first, more :: Joined(first, more, tokens) &&
        Spells(first, args[0]) && SpellsArgs(WithoutComma(more), args[1..])
  }

  /** An argument and what follows it. */
  predicate Joined(first: seq<string>, more: seq<string>, tokens: seq<string>) {
    first != [] && first[0] != ")" && tokens == first + more
  }

  function WithoutComma(tokens: seq<string>): seq<string> {
    if tokens != [] && tokens[0] == "," then tokens[1..] else tokens
  }

  lemma MoreSpells(first: seq<string>, node: Node, more: seq<string>, nodes: seq<Node>)
    requires first != [] && first[0] != ")" && Spells(first, node) && SpellsArgs(WithoutComma(more), nodes)
    ensures SpellsArgs(first + more, [node] + nodes)
  {
    assert Joined(first, more, first + more);
    assert ([node] + nodes)[1..] == nodes;
  }

  lemma GroupSpells(op: Op, args: seq<Node>, inner: seq<string>)
    requires SpellsArgs(inner, args)
    ensures Spells([Name(op), "("] + inner + [")"], Group(op, args))
  {
    var tokens := [Name(op), "("] + inner + [")"];
    assert tokens[2..|tokens| - 1] == inner;
  }

  /** What a successful parse consumed spells the tree. */
  lemma {:induction false} ParsedSpells(tokens: seq<string>) returns (used: seq<string>)
    requires ParseExpr(tokens).Ok?
    ensures tokens == used + ParseExpr(tokens).value.1 && Spells(used, ParseExpr(tokens).value.0)
    decreases |tokens|, 0
  {
    if Reserved(tokens[0]) {
      var inner := ParsedSpellsArgs(tokens[1..][1..]);
      var (args, after) := ParseArgs(tokens[1..][1..]).value;
      GroupSpells(OpNamed(tokens[0]), args, inner);
      used := [tokens[0], "("] + inner + [")"];
      GroupTokens(tokens, inner, after);
    } else {
      used := tokens[..3];
      AtomTokens(tokens, ParseExpr(tokens).value.0.value);
    }
  }

  lemma GroupTokens(tokens: seq<string>, inner: seq<string>, after: seq<string>)
    requires |tokens| >= 2 && tokens[1..][0] == "(" && tokens[1..][1..] == inner + after
    requires after != [] && after[0] == ")"
    ensures tokens == ([tokens[0], "("] + inner + [")"]) + after[1..]
  {
    assert tokens == [tokens[0], "("] + tokens[1..][1..];
    assert after == [")"] + after[1..];
  }

  lemma AtomTokens(tokens: seq<string>, value: string)
    requires |tokens| >= 3 && !Reserved(tokens[0]) && tokens[1..][0] == "=" && tokens[1..][1] != ""
    requires tokens[1..][1][0] == '"' && StripQuotes(tokens[1..][1]) == value
    ensures tokens == tokens[..3] + tokens[1..][2..] && Spells(tokens[..3], Atom(tokens[0], value))
  {
    assert tokens[1..][2..] == tokens[3..];
  }

  lemma {:induction false} ParsedSpellsArgs(tokens: seq<string>) returns (used: seq<string>)
    requires ParseArgs(tokens).Ok?
    ensures tokens == used + ParseArgs(tokens).value.1 && SpellsArgs(used, ParseArgs(tokens).value.0)
    decreases |tokens|, 1
  {
    if tokens != [] && tokens[0] == ")" {
      used := [];
    } else {
      var first := ParsedSpells(tokens);
      var (node, after) := ParseExpr(tokens).value;
      var others := ParsedSpellsArgs(SkipComma(after));
      var (nodes, rest) := ParseArgs(SkipComma(after)).value;
      var more := Separated(after, others, rest);
      SpelledFirst(tokens, first, after);
      MoreSpells(first, node, more, nodes);
      used := first + more;
      Associative(first, more, rest);
    }
  }

  lemma Associative(a: seq<string>, b: seq<string>, c: seq<string>)
    ensures (a + b) + c == a + (b + c)
  {
  }

  lemma SpelledFirst(tokens: seq<string>, first: seq<string>, after: seq<string>)
    requires tokens == first + after && |after| < |tokens|
    ensures first != [] && first[0] == tokens[0]
  {
  }

  lemma Separated(after: seq<string>, others: seq<string>, rest: seq<string>) returns (more: seq<string>)
    requires SkipComma(after) == others + rest && rest != [] && rest[0] == ")"
    ensures after == more + rest && WithoutComma(more) == others
  {
    if after != [] && after[0] == "," {
      more := [","] + others;
      assert after == [","] + (others + rest);
    } else {
      more := others;
    }
  }

  /** What spells a tree is parsed into it, and what follows is left. */
  lemma {:induction false} SpelledParses(tokens: seq<string>, t: Node, rest: seq<string>)
    requires Spells(tokens, t)
    ensures ParseExpr(tokens + rest) == Ok((t, rest))
    decreases t, 1
  {
    var all := tokens + rest;
    match t
    case Atom(_, _) =>
      assert all[1..][0] == "=" && all[1..][1] == tokens[2] && all[1..][2..] == rest;
    case Group(op, args) =>
      var inner := tokens[2..|tokens| - 1];
      SpelledArgsParse(inner, args, [")"] + rest);
      assert all[1..][0] == "(" && all[1..][1..] == inner + ([")"] + rest);
      assert ([")"] + rest)[1..] == rest && OpNamed(Name(op)) == op;
  }

  lemma ArgsStep(tokens: seq<string>, node: Node, after: seq<string>, nodes: seq<Node>, rest: seq<string>)
    requires tokens != [] && tokens[0] != ")" && ParseExpr(tokens) == Ok((node, after))
    requires ParseArgs(SkipComma(after)) == Ok((nodes, rest))
    ensures ParseArgs(tokens) == Ok(([node] + nodes, rest))
  {
  }

  lemma {:induction false} SpelledArgsParse(tokens: seq<string>, args: seq<Node>, rest: seq<string>)
    requires SpellsArgs(tokens, args) && rest != [] && rest[0] == ")"
    ensures ParseArgs(tokens + rest) == Ok((args, rest))
    decreases args, 0
  {
    if args == [] {
      assert tokens + rest == rest;
    } else {
      var first, more := FirstArgument(tokens, args);
      SpelledParses(first, args[0], more + rest);
      SpelledArgsParse(WithoutComma(more), args[1..], rest);
      ArgumentParses(first, more, args[0], args[1..], rest);
      assert args == [args[0]] + args[1..];
    }
  }

  lemma FirstArgument(tokens: seq<string>, args: seq<Node>) returns (first: seq<string>, more: seq<string>)
    requires SpellsArgs(tokens, args) && args != []
    ensures Joined(first, more, tokens) && Spells(first, args[0]) && SpellsArgs(WithoutComma(more), args[1..])
  {
    first, more :| Joined(first, more, tokens) && Spells(first, args[0]) && SpellsArgs(WithoutComma(more), args[1..]);
  }

  lemma ArgumentParses(first: seq<string>, more: seq<string>, node: Node, nodes: seq<Node>, rest: seq<string>)
    requires first != [] && first[0] != ")" && rest != [] && rest[0] == ")"
    requires ParseExpr(first + (more + rest)) == Ok((node, more + rest))
    requires ParseArgs(WithoutComma(more) + rest) == Ok((nodes, rest))
    ensures ParseArgs(first + more + rest) == Ok(([node] + nodes, rest))
  {
    SkipsBehind(more, rest);
    Associative(first, more, rest);
    ArgsStep(first + more + rest, node, more + rest, nodes, rest);
  }

  lemma SkipsBehind(tokens: seq<string>, rest: seq<string>)
    requires rest != [] && rest[0] == ")"
    ensures SkipComma(tokens + rest) == WithoutComma(tokens) + rest
  {
    if tokens == [] {
      assert tokens + rest == rest;
    } else if tokens[0] == "," {
      assert (tokens + rest)[1..] == tokens[1..] + rest;
    }
  }

  /** The parser accepts exactly the tokens that spell a tree, and gives that tree. */
  lemma ParsesExactly(tokens: seq<string>, t: Node)
    ensures Parse(tokens) == Ok(t) <==> Spells(tokens, t)
  {
    if Parse(tokens) == Ok(t) {
      var used := ParsedSpells(tokens);
      assert used + [] == used;
    }
    if Spells(tokens, t) {
      SpelledParses(tokens, t, []);
      assert tokens + [] == tokens;
    }
  }

  /** The argument list once `args` were read and `rest` is the outcome of the tokens after them. */
  function Continued(args: seq<Node>, rest: Result<(seq<Node>, seq<string>), Error>)
    : Result<(seq<Node>, seq<string>), Error> {
    match rest
    case Err(error) => Err(error)
    case Ok((nodes, after)) => Ok((args + nodes, after))
  }

  lemma ContinuedNone(rest: Result<(seq<Node>, seq<string>), Error>)
    ensures Continued([], rest) == rest
  {
    if rest.Ok? {
      assert [] + rest.value.0 == rest.value.0;
    }
  }

  lemma ContinuedStep(args: seq<Node>, node: Node, rest: Result<(seq<Node>, seq<string>), Error>)
    ensures Continued(args + [node], rest) == Continued(args, Continued([node], rest))
  {
    if rest.Ok? {
      assert args + [node] + rest.value.0 == args + ([node] + rest.value.0);
    }
  }

  /** Which characters `\\w` matches; never one of the punctuation tokens. */
  ghost predicate WordClass(word: char -> bool) {
    !word('(') && !word(')') && !word(',') && !word('=') && !word('"') &&
    forall c :: 'a' <= c <= 'z' ==> word(c)
  }

  predicate IsWord(word: char -> bool, s: string) {
    s != "" && forall i :: 0 <= i < |s| ==> word(s[i])
  }

  /** Trees the tokens can spell: keys are words, values have no quote. */
  predicate Spellable(word: char -> bool, t: Node) {
    match t
    case Atom(key, value) => IsWord(word, key) && '"' !in value
    case Group(_, args) => forall i :: 0 <= i < |args| ==> Spellable(word, args[i])
  }

  predicate HasReservedKey(t: Node) {
    match t
    case Atom(key, _) => Reserved(key)
    case Group(_, args) => exists i :: 0 <= i < |args| && HasReservedKey(args[i])
  }

  function Render(t: Node): seq<string>
    decreases t, 1
  {
    match t
    case Atom(key, value) => [key, "=", "\"" + value + "\""]
    case Group(op, args) => [Name(op), "("] + RenderArgs(args) + [")"]
  }

  function RenderArgs(args: seq<Node>): seq<string>
    decreases args, 0
  {
    if args == [] then [] else if |args| == 1 then Render(args[0]) else Render(args[0]) + [","] + RenderArgs(args[1..])
  }

  lemma StripsQuotedValue(value: string)
    requires '"' !in value
    ensures StripQuotes("\"" + value + "\"") == value
  {
    var quoted, closed := "\"" + value + "\"", value + "\"";
    assert quoted[1..] == closed && StripLeft(quoted) == StripLeft(closed);
    if value == "" {
      assert closed[1..] == "" && StripLeft(closed) == StripLeft("") == "";
    } else {
      assert closed[0] == value[0] && value[0] in value;
      assert StripLeft(closed) == closed;
      assert closed[|value|] == '"' && closed[..|value|] == value;
      assert value[|value| - 1] in value;
      assert StripRight(value) == value;
    }
  }

  lemma RenderStarts(word: char -> bool, t: Node)
    requires WordClass(word) && Spellable(word, t)
    ensures Render(t) != [] && Render(t)[0] != ")"
  {
    if t.Atom? {
      assert word(t.key[0]) && t.key[0] != ')';
    } else {
      assert Render(t)[0] == Name(t.op);
    }
  }

  /** Parsing rendered tokens gives the tree back and leaves exactly what followed it, unless a key is reserved: then
      the parser fails on it. */
  lemma {:induction false} ParseRendered(word: char -> bool, t: Node, rest: seq<string>)
    requires WordClass(word) && Spellable(word, t)
    ensures HasReservedKey(t) ==> ParseExpr(Render(t) + rest).Err?
    ensures !HasReservedKey(t) ==> ParseExpr(Render(t) + rest) == Ok((t, rest))
    decreases t, 1
  {
    var tokens := Render(t) + rest;
    match t
    case Atom(key, value) =>
      StripsQuotedValue(value);
      assert tokens[0] == key && tokens[1..][0] == "=" && tokens[1..][1] == "\"" + value + "\"";
      assert tokens[1..][2..] == rest;
    case Group(op, args) =>
      assert tokens[0] == Name(op) && tokens[1..][0] == "(";
      assert tokens[1..][1..] == RenderArgs(args) + ([")"] + rest);
      ParseRenderedArgs(word, args, rest);
      assert ([")"] + rest)[1..] == rest;
  }

  ghost predicate AnyReservedKey(args: seq<Node>) {
    exists i :: 0 <= i < |args| && HasReservedKey(args[i])
  }

  lemma {:induction false} ParseRenderedArgs(word: char -> bool, args: seq<Node>, rest: seq<string>)
    requires WordClass(word) && forall i :: 0 <= i < |args| ==> Spellable(word, args[i])
    ensures AnyReservedKey(args) ==> ParseArgs(RenderArgs(args) + ([")"] + rest)).Err?
    ensures !AnyReservedKey(args) ==> ParseArgs(RenderArgs(args) + ([")"] + rest)) == Ok((args, [")"] + rest))
    decreases args, 0
  {
    var tokens := RenderArgs(args) + ([")"] + rest);
    if args == [] {
      assert tokens == [")"] + rest;
    } else {
      var first, more := args[0], args[1..];
      var after := if more == [] then [")"] + rest else [","] + (RenderArgs(more) + ([")"] + rest));
      assert tokens == Render(first) + after;
      RenderStarts(word, first);
      assert tokens[0] == Render(first)[0];
      ParseRendered(word, first, after);
      ParseRenderedArgs(word, more, rest);
      assert args == [first] + more;
      AnyReservedCons(first, more);
      assert SkipComma(after) == RenderArgs(more) + ([")"] + rest);
    }
  }

  lemma AnyReservedCons(first: Node, more: seq<Node>)
    ensures AnyReservedKey([first] + more) <==> HasReservedKey(first) || AnyReservedKey(more)
  {
    var all := [first] + more;
    if i :| 0 <= i < |all| && HasReservedKey(all[i]) {
      if i > 0 { assert more[i - 1] == all[i]; }
    }
    if i :| 0 <= i < |more| && HasReservedKey(more[i]) { assert all[i + 1] == more[i]; }
    if HasReservedKey(first) { assert all[0] == first; }
  }

  function WordLength(word: char -> bool, text: string): (n: nat)
    ensures n <= |text|
  {
    if text == "" || !word(text[0]) then 0 else 1 + WordLength(word, text[1..])
  }

  /** The position of the next quote, or the length of the text. */
  function QuoteAt(text: string): (n: nat)
    ensures n <= |text|
  {
    if text == "" || text[0] == '"' then 0 else 1 + QuoteAt(text[1..])
  }

  /** Longest words, single marks and quoted strings, in the order of the text; anything else is skipped, an unclosed
      quote included. */
  function Tokenize(word: char -> bool, text: string): seq<string>
    decreases |text|
  {
    if text == "" then []
    else if word(text[0]) then
      var n := WordLength(word, text);
      [text[..n]] + Tokenize(word, text[n..])
    else if text[0] in {'(', ')', ',', '='} then [[text[0]]] + Tokenize(word, text[1..])
    else if text[0] == '"' && QuoteAt(text[1..]) < |text| - 1 then
      var n := QuoteAt(text[1..]) + 2;
      [text[..n]] + Tokenize(word, text[n..])
    else Tokenize(word, text[1..])
  }

  function RenderText(t: Node): string
    decreases t, 1
  {
    match t
    case Atom(key, value) => key + "=" + ("\"" + value + "\"")
    case Group(op, args) => Name(op) + "(" + RenderTextArgs(args) + ")"
  }

  function RenderTextArgs(args: seq<Node>): string
    decreases args, 0
  {
    if args == [] then ""
    else if |args| == 1 then RenderText(args[0])
    else RenderText(args[0]) + "," + RenderTextArgs(args[1..])
  }

  lemma {:induction false} WordLengthIs(word: char -> bool, s: string, rest: string)
    requires (forall i :: 0 <= i < |s| ==> word(s[i])) && (rest == "" || !word(rest[0]))
    ensures WordLength(word, s + rest) == |s|
  {
    if s == "" {
      assert s + rest == rest;
    } else {
      WordLengthIs(word, s[1..], rest);
      assert (s + rest)[1..] == s[1..] + rest;
    }
  }

  lemma {:induction false} QuoteAtIs(value: string, rest: string)
    requires '"' !in value
    ensures QuoteAt(value + "\"" + rest) == |value|
  {
    if value == "" {
      assert (value + "\"" + rest)[0] == '"';
    } else {
      assert value[0] in value && forall c :: c in value[1..] ==> c in value;
      QuoteAtIs(value[1..], rest);
      assert (value + "\"" + rest)[0] == value[0] && (value + "\"" + rest)[1..] == value[1..] + "\"" + rest;
    }
  }

  lemma TokenizeWord(word: char -> bool, s: string, rest: string)
    requires IsWord(word, s) && rest != "" && !word(rest[0])
    ensures Tokenize(word, s + rest) == [s] + Tokenize(word, rest)
  {
    WordLengthIs(word, s, rest);
    assert (s + rest)[0] == s[0];
    assert (s + rest)[..|s|] == s && (s + rest)[|s|..] == rest;
  }

  lemma TokenizeMark(word: char -> bool, mark: char, rest: string)
    requires WordClass(word) && mark in {'(', ')', ',', '='}
    ensures Tokenize(word, [mark] + rest) == [[mark]] + Tokenize(word, rest)
  {
    assert ([mark] + rest)[1..] == rest;
  }

  lemma TokenizeQuoted(word: char -> bool, value: string, rest: string)
    requires WordClass(word) && '"' !in value
    ensures Tokenize(word, "\"" + value + "\"" + rest) == ["\"" + value + "\""] + Tokenize(word, rest)
  {
    var text := "\"" + value + "\"" + rest;
    QuoteAtIs(value, rest);
    assert text[1..] == value + "\"" + rest;
    assert text[..|value| + 2] == "\"" + value + "\"" && text[|value| + 2..] == rest;
  }

  lemma TokenizeAtom(word: char -> bool, key: string, value: string, rest: string)
    requires WordClass(word) && IsWord(word, key) && '"' !in value
    ensures Tokenize(word, key + "=" + ("\"" + value + "\"") + rest) ==
      [key, "=", "\"" + value + "\""] + Tokenize(word, rest)
  {
    var quoted := "\"" + value + "\"";
    assert key + "=" + quoted + rest == key + ("=" + (quoted + rest));
    TokenizeWord(word, key, "=" + (quoted + rest));
    TokenizeMark(word, '=', quoted + rest);
    TokenizeQuoted(word, value, rest);
  }

  lemma TokenizeGroup(word: char -> bool, name: string, inner: string, tokens: seq<string>, rest: string)
    requires WordClass(word) && IsWord(word, name)
    requires Tokenize(word, inner + (")" + rest)) == tokens + Tokenize(word, ")" + rest)
    ensures Tokenize(word, name + "(" + inner + ")" + rest) == [name, "("] + tokens + [")"] + Tokenize(word, rest)
  {
    assert name + "(" + inner + ")" + rest == name + ("(" + (inner + (")" + rest)));
    TokenizeWord(word, name, "(" + (inner + (")" + rest)));
    TokenizeMark(word, '(', inner + (")" + rest));
    TokenizeMark(word, ')', rest);
  }

  /** The text of a tree has the tree's tokens, whatever follows. */
  lemma {:induction false} TokenizeRendered(word: char -> bool, t: Node, rest: string)
    requires WordClass(word) && Spellable(word, t)
    ensures Tokenize(word, RenderText(t) + rest) == Render(t) + Tokenize(word, rest)
    decreases t, 1
  {
    match t
    case Atom(key, value) => TokenizeAtom(word, key, value, rest);
    case Group(op, args) =>
      TokenizeRenderedArgs(word, args, ")" + rest);
      TokenizeGroup(word, Name(op), RenderTextArgs(args), RenderArgs(args), rest);
  }

  lemma {:induction false} TokenizeRenderedArgs(word: char -> bool, args: seq<Node>, rest: string)
    requires WordClass(word) && forall i :: 0 <= i < |args| ==> Spellable(word, args[i])
    ensures Tokenize(word, RenderTextArgs(args) + rest) == RenderArgs(args) + Tokenize(word, rest)
    decreases args, 0
  {
    if args == [] {
      assert RenderTextArgs(args) + rest == rest;
    } else if |args| == 1 {
      TokenizeRendered(word, args[0], rest);
    } else {
      var first, others := RenderText(args[0]), RenderTextArgs(args[1..]);
      TokenizeRendered(word, args[0], "," + (others + rest));
      TokenizeRenderedArgs(word, args[1..], rest);
      TokenizeList(word, first, others, Render(args[0]), RenderArgs(args[1..]), rest);
    }
  }

  lemma TokenizeList(word: char -> bool, first: string, others: string, firstTokens: seq<string>,
                     otherTokens: seq<string>, rest: string)
    requires WordClass(word)
    requires Tokenize(word, first + ("," + (others + rest))) == firstTokens + Tokenize(word, "," + (others + rest))
    requires Tokenize(word, others + rest) == otherTokens + Tokenize(word, rest)
    ensures Tokenize(word, first + "," + others + rest) == firstTokens + [","] + otherTokens + Tokenize(word, rest)
  {
    TextRegroup(first, others, rest);
    TokenizeMark(word, ',', others + rest);
    TokensRegroup(firstTokens, otherTokens, Tokenize(word, rest));
  }

  lemma TextRegroup(first: string, others: string, rest: string)
    ensures first + "," + others + rest == first + ("," + (others + rest))
  {
  }

  lemma TokensRegroup(first: seq<string>, others: seq<string>, rest: seq<string>)
    ensures first + ([","] + (others + rest)) == first + [","] + others + rest
  {
  }

  /** Round trip: tokenizing and parsing the text of a tree gives the tree back exactly when none of its keys is one of
      `all`, `any` and `not`. */
  lemma RoundTripExact(word: char -> bool, t: Node)
    requires WordClass(word) && Spellable(word, t)
    ensures Parse(Tokenize(word, RenderText(t))) == Ok(t) <==> !HasReservedKey(t)
  {
    TokenizeRendered(word, t, "");
    assert RenderText(t) + "" == RenderText(t) && Render(t) + Tokenize(word, "") == Render(t);
    ParseRendered(word, t, []);
    assert Render(t) + [] == Render(t);
  }

  /** An atom whose key is `all` is not read back: the parser takes the key for the start of a group. */
  lemma ReservedKeyIsLost(word: char -> bool)
    requires WordClass(word)
    ensures Parse(Tokenize(word, RenderText(Atom("all", "")))) != Ok(Atom("all", ""))
  {
    RoundTripExact(word, Atom("all", ""));
  }

  /** Target and feature facts: one value, or a list of values. */
  datatype Fact = One(value: string) | Many(values: seq<string>)

  type Facts = map<string, Fact>

  predicate Admits(facts: Facts, key: string, value: string) {
    key in facts && match facts[key]
      case One(have) => have == value
      case Many(values) => value in values
  }

  /** `eval_cfg`, with Python's short-circuiting `all` and `any`; a `not` without exactly one argument raises. */
  function Eval(t: Node, facts: Facts): Result<bool, Error>
    decreases t, 1
  {
    match t
    case Atom(key, value) => Ok(Admits(facts, key, value))
    case Group(All, args) => EvalAll(args, facts)
    case Group(Any, args) => EvalAny(args, facts)
    case Group(Not, args) =>
      if |args| != 1 then Err(NotArity)
      else match Eval(args[0], facts)
        case Err(error) => Err(error)
        case Ok(value) => Ok(!value)
  }

  function EvalAll(args: seq<Node>, facts: Facts): Result<bool, Error>
    decreases args, 0
  {
    if args == [] then Ok(true)
    else
      var first := Eval(args[0], facts);
      if first == Ok(true) then EvalAll(args[1..], facts) else first
  }

  function EvalAny(args: seq<Node>, facts: Facts): Result<bool, Error>
    decreases args, 0
  {
    if args == [] then Ok(false)
    else
      var first := Eval(args[0], facts);
      if first == Ok(false) then EvalAny(args[1..], facts) else first
  }

  /** Every `not` has one argument. */
  predicate WellFormed(t: Node) {
    match t
    case Atom(_, _) => true
    case Group(op, args) => (op == Not ==> |args| == 1) && forall i :: 0 <= i < |args| ==> WellFormed(args[i])
  }

  /** The meaning of a predicate ("Conditional compilation" in the Rust Reference): a key is set to a value if that is
      its one value or among its values. */
  predicate Holds(t: Node, facts: Facts) {
    match t
    case Atom(key, value) =>
      key in facts && (facts[key] == One(value) || (facts[key].Many? && value in facts[key].values))
    case Group(All, args) => forall i :: 0 <= i < |args| ==> Holds(args[i], facts)
    case Group(Any, args) => exists i :: 0 <= i < |args| && Holds(args[i], facts)
    case Group(Not, args) => |args| == 1 && !Holds(args[0], facts)
  }

  /** On well-formed predicates the evaluator never raises and computes the meaning. */
  lemma {:induction false} EvalIsHolds(t: Node, facts: Facts)
    requires WellFormed(t)
    ensures Eval(t, facts) == Ok(Holds(t, facts))
    decreases t, 1
  {
    match t
    case Atom(_, _) =>
    case Group(All, args) => EvalAllIsHolds(args, facts);
    case Group(Any, args) => EvalAnyIsHolds(args, facts);
    case Group(Not, args) => EvalIsHolds(args[0], facts);
  }

  lemma {:induction false} EvalAllIsHolds(args: seq<Node>, facts: Facts)
    requires forall i :: 0 <= i < |args| ==> WellFormed(args[i])
    ensures EvalAll(args, facts) == Ok(forall i :: 0 <= i < |args| ==> Holds(args[i], facts))
    decreases args, 0
  {
    if args != [] {
      EvalIsHolds(args[0], facts);
      EvalAllIsHolds(args[1..], facts);
      assert forall i :: 0 < i < |args| ==> args[i] == args[1..][i - 1];
    }
  }

  lemma {:induction false} EvalAnyIsHolds(args: seq<Node>, facts: Facts)
    requires forall i :: 0 <= i < |args| ==> WellFormed(args[i])
    ensures EvalAny(args, facts) == Ok(exists i :: 0 <= i < |args| && Holds(args[i], facts))
    decreases args, 0
  {
    if args != [] {
      var rest := args[1..];
      EvalIsHolds(args[0], facts);
      EvalAnyIsHolds(rest, facts);
      if i :| 0 <= i < |args| && Holds(args[i], facts) {
        if i > 0 { assert rest[i - 1] == args[i]; }
      }
      if i :| 0 <= i < |rest| && Holds(rest[i], facts) { assert args[i + 1] == rest[i]; }
    }
  }

  /** Evaluating what was parsed from a tree's text is evaluating the tree. */
  lemma EvalAfterRoundTrip(word: char -> bool, t: Node, facts: Facts)
    requires WordClass(word) && Spellable(word, t) && !HasReservedKey(t) && WellFormed(t)
    ensures var parsed := Parse(Tokenize(word, RenderText(t)));
      parsed.Ok? && Eval(parsed.value, facts) == Ok(Holds(t, facts))
  {
    RoundTripExact(word, t);
    EvalIsHolds(t, facts);
  }

  predicate NotFree(t: Node) {
    match t
    case Atom(_, _) => true
    case Group(op, args) => op != Not && forall i :: 0 <= i < |args| ==> NotFree(args[i])
  }

  ghost predicate MoreFacts(facts: Facts, more: Facts) {
    forall key, value :: Admits(facts, key, value) ==> Admits(more, key, value)
  }

  /** Without `not`, more facts never switch a predicate off, and evaluation never raises. */
  lemma {:induction false} NotFreeIsMonotone(t: Node, facts: Facts, more: Facts)
    requires NotFree(t) && MoreFacts(facts, more)
    ensures WellFormed(t)
    ensures Holds(t, facts) ==> Holds(t, more)
    ensures Eval(t, facts) == Ok(true) ==> Eval(t, more) == Ok(true)
    decreases t
  {
    match t
    case Atom(key, value) => assert Admits(facts, key, value) ==> Admits(more, key, value);
    case Group(op, args) =>
      forall i | 0 <= i < |args| ensures WellFormed(args[i]) && (Holds(args[i], facts) ==> Holds(args[i], more)) {
        NotFreeIsMonotone(args[i], facts, more);
      }
      EvalIsHolds(t, facts);
      EvalIsHolds(t, more);
  }
}
