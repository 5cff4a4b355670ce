/** The compiler's lexer (compiler/src/lexical_analysis.py): a line is cut
    into tokens by extending a substring one character at a time and, at
    the first rejection after an acceptance, emitting the last accepted
    substring. The token classifier (`get_token_type`, regular expressions
    read from a definition file) and the table of kinds that keep their
    text (`stores_value`) are parameters of the model. */
module Lexer {
  import opened Wrappers
  import opened Seqs

  /** `get_token_type`: the kind of a string that is a whole token, or None. */
  type Classifier = string -> Option<string>

  /** A lexical token: its kind and, for kinds that store it, its text. */
  datatype Token = Token(kind: string, value: Option<string>)

  datatype LexError =
    | InvalidTokens(line: string)   // a remainder no pattern accepts
    | InvalidInputType              // neither a string nor a list

  /** The argument of `convert_into_tokens`: a line, a list of arguments,
      or a value of any other type. */
  datatype Input = Str(s: string) | List(items: seq<Input>) | Other

  const Whitespace: string := "WHITESPACE"

  /** ASCII upper case (`str.upper` on the letters a-z). */
  function Upper(s: string): (r: string)
    ensures |r| == |s|
    ensures forall i :: 0 <= i < |s| ==>
      r[i] == (if 'a' <= s[i] <= 'z' then (s[i] as int - 32) as char else s[i])
  {
    seq(|s|, i requires 0 <= i < |s| => if 'a' <= s[i] <= 'z' then (s[i] as int - 32) as char else s[i])
  }

  /** Upper-cased text has no lower-case letter left, and upper-casing it
      again changes nothing. */
  lemma UpperIsUpper(s: string)
    ensures forall i :: 0 <= i < |s| ==> !('a' <= Upper(s)[i] <= 'z')
    ensures Upper(Upper(s)) == Upper(s)
  {
  }

  /** `create_token`: a kind that stores its text keeps it (upper-cased
      for TYPE tokens); any other kind keeps none. */
  function CreateToken(stores: string -> bool, text: string, kind: string): (t: Token)
    ensures t.kind == kind
    ensures t.value.Some? <==> stores(kind)
    ensures t.value.Some? && kind != "TYPE" ==> t.value.value == text
    ensures t.value.Some? && kind == "TYPE" ==> t.value.value == Upper(text)
    ensures t.value.Some? ==> |t.value.value| == |text|
  {
    if stores(kind) then Token(kind, Some(if kind == "TYPE" then Upper(text) else text))
    else Token(kind, None)
  }

  /** Whether `get_non_whitespace_tokens` keeps a token. */
  predicate KeepToken(t: Token)
  {
    t.kind != Whitespace
  }

  /** The scan from `start` stops at `e`: `line[start..e]` is accepted and
      its one-character extension is rejected. */
  predicate Boundary(c: Classifier, line: string, start: nat, e: nat)
    requires start < e < |line|
  {
    c(line[start..e]).Some? && c(line[start..e + 1]).None?
  }

  /** Where the scan from `start`, having looked at the substrings ending
      before `j`, emits a token: the first boundary, or None when the line
      ends first. */
  function EmitEnd(c: Classifier, line: string, start: nat, j: nat): (r: Option<nat>)
    requires start < j <= |line| + 1
    ensures r.Some? ==> j - 1 <= r.value && start < r.value < |line| && Boundary(c, line, start, r.value)
    ensures forall e :: j - 1 <= e && start < e < (if r.Some? then r.value else |line|) ==> !Boundary(c, line, start, e)
    decreases |line| + 1 - j
  {
    if j > |line| then None
    else if j - 1 > start && Boundary(c, line, start, j - 1) then Some(j - 1)
    else EmitEnd(c, line, start, j + 1)
  }

  /** The texts of the tokens the scan emits from `start` to the end of
      the line, before the whitespace filter: each emitted at its
      boundary, and the remainder as a last token when it is not empty. */
  function LexemesFrom(c: Classifier, line: string, start: nat): (r: Result<seq<string>, LexError>)
    requires start <= |line|
    ensures r.Success? ==> forall i :: 0 <= i < |r.value| ==> |r.value[i]| > 0 && c(r.value[i]).Some?
    ensures r.Failure? ==> r.error == InvalidTokens(line)
    decreases |line| - start
  {
    match EmitEnd(c, line, start, start + 1)
    case Some(e) =>
      var rest :- LexemesFrom(c, line, e);
      Success([line[start..e]] + rest)
    case None =>
      if start == |line| then Success([])
      else if c(line[start..]).Some? then Success([line[start..]])
      else Failure(InvalidTokens(line))
  }

  /** The tokens made of accepted texts, in order. */
  function TokensOf(c: Classifier, stores: string -> bool, texts: seq<string>): (ts: seq<Token>)
    requires forall i :: 0 <= i < |texts| ==> c(texts[i]).Some?
    ensures |ts| == |texts|
    ensures forall i :: 0 <= i < |texts| ==> ts[i] == CreateToken(stores, texts[i], c(texts[i]).value)
  {
    seq(|texts|, i requires 0 <= i < |texts| => CreateToken(stores, texts[i], c(texts[i]).value))
  }

  /** Whether a line is skipped: empty, or starting with `//`. */
  predicate SkippedLine(line: string)
  {
    |line| == 0 || (|line| >= 2 && line[..2] == "//")
  }

  /** `convert_into_tokens` on a string; it raises only on a line it
      scans, naming that line. */
  function LexLine(c: Classifier, stores: string -> bool, line: string): (r: Result<seq<Token>, LexError>)
    ensures r.Failure? ==> !SkippedLine(line) && r.error == InvalidTokens(line)
  {
    if SkippedLine(line) then Success([])
    else
      var texts :- LexemesFrom(c, line, 0);
      Success(Filter(KeepToken, TokensOf(c, stores, texts)))
  }

  /** `convert_into_tokens` on any argument: a list yields its items'
      tokens one after the other, the first failing item raising. */
  function Tokenize(c: Classifier, stores: string -> bool, input: Input): Result<seq<Token>, LexError>
    decreases input, 1, 0
  {
    match input
    case Str(line) => LexLine(c, stores, line)
    case List(items) => TokenizeItems(c, stores, items, |items|)
    case Other => Failure(InvalidInputType)
  }

  /** The list case over its first `n` items. */
  function TokenizeItems(c: Classifier, stores: string -> bool, items: seq<Input>, n: nat): Result<seq<Token>, LexError>
    requires n <= |items|
    decreases List(items), 0, n
  {
    if n == 0 then Success([])
    else
      var done :- TokenizeItems(c, stores, items, n - 1);
      assert items[n - 1] in items;
      var more :- Tokenize(c, stores, items[n - 1]);
      Success(done + more)
  }

  /** The texts concatenated. */
  function Concat(texts: seq<string>): string
  {
    if texts == [] then [] else texts[0] + Concat(texts[1..])
  }

  /** No proper prefix of `w` is a boundary: the scan over `w` never
      stops early. */
  predicate StopsAt(c: Classifier, w: string, k: nat)
    requires 0 < k < |w|
  {
    c(w[..k]).Some? && c(w[..k + 1]).None?
  }

  predicate Munched(c: Classifier, w: string)
  {
    forall k :: 0 < k < |w| ==> !StopsAt(c, w, k)
  }

  /** What the scan promises of the texts it cuts a line into: they are
      accepted, non-empty and concatenate back to the line; no token could
      have ended earlier; and every token but the last is rejected once
      extended by the next token's first character. */
  predicate Tokenization(c: Classifier, texts: seq<string>)
  {
    && (forall i :: 0 <= i < |texts| ==> |texts[i]| > 0 && c(texts[i]).Some? && Munched(c, texts[i]))
    && (forall i :: 0 <= i < |texts| - 1 ==> RejectsNext(c, texts, i))
  }

  /** Text `i` extended by the first character of text `i + 1` is rejected. */
  predicate RejectsNext(c: Classifier, texts: seq<string>, i: nat)
    requires i + 1 < |texts|
  {
    |texts[i + 1]| > 0 && c(texts[i] + [texts[i + 1][0]]).None?
  }

  /** The first text of a concatenation equal to `line[start..]` is the
      slice of the line after `start`, and the rest follows it. */
  lemma ConcatFirst(line: string, start: nat, texts: seq<string>)
    requires start <= |line| && Concat(texts) == line[start..] && texts != []
    ensures start + |texts[0]| <= |line|
    ensures line[start..start + |texts[0]|] == texts[0]
    ensures Concat(texts[1..]) == line[start + |texts[0]|..]
  {
  }

  /** The scan from `start` cuts `line[start..]` into a tokenization. */
  lemma {:induction false} LexemesSpec(c: Classifier, line: string, start: nat)
    requires start <= |line| && LexemesFrom(c, line, start).Success?
    ensures Concat(LexemesFrom(c, line, start).value) == line[start..]
    ensures Tokenization(c, LexemesFrom(c, line, start).value)
    decreases |line| - start
  {
    match EmitEnd(c, line, start, start + 1)
    case Some(e) =>
      LexemesSpec(c, line, e);
      EmittedSpec(c, line, start, e, LexemesFrom(c, line, e).value);
    case None =>
      if start < |line| {
        var texts := LexemesFrom(c, line, start).value;
        MunchedUpTo(c, line, start, |line|);
        assert line[start..|line|] == line[start..];
        assert texts == [line[start..]];
        assert Concat(texts) == line[start..] + Concat([]);
      }
  }

  /** The step of `LexemesSpec` where a token is emitted at boundary `e`. */
  lemma EmittedSpec(c: Classifier, line: string, start: nat, e: nat, rest: seq<string>)
    requires start < e < |line| && Boundary(c, line, start, e)
    requires forall k :: start < k < e ==> !Boundary(c, line, start, k)
    requires Concat(rest) == line[e..] && Tokenization(c, rest)
    ensures Concat([line[start..e]] + rest) == line[start..]
    ensures Tokenization(c, [line[start..e]] + rest)
  {
    var w := line[start..e];
    assert ([w] + rest)[1..] == rest;
    assert line[start..] == w + line[e..];
    MunchedUpTo(c, line, start, e);
    ConcatFirst(line, e, rest);
    assert line[start..e + 1] == w + [rest[0][0]];
    TokenizationCons(c, w, rest);
  }

  /** A text `line[start..e]` with no boundary strictly inside it is
      munched. */
  lemma MunchedUpTo(c: Classifier, line: string, start: nat, e: nat)
    requires start < e <= |line|
    requires forall k :: start < k < e ==> !Boundary(c, line, start, k)
    ensures Munched(c, line[start..e])
  {
    var w := line[start..e];
    forall k | 0 < k < |w|
      ensures !StopsAt(c, w, k)
    {
      assert w[..k] == line[start..start + k];
      assert w[..k + 1] == line[start..start + k + 1];
      assert !Boundary(c, line, start, start + k);
    }
  }

  /** Conversely, the tokenization of `line[start..]` is unique: any texts
      with the promised properties are exactly what the scan emits. */
  lemma {:induction false} LexemesUnique(c: Classifier, line: string, start: nat, texts: seq<string>)
    requires start <= |line| && Concat(texts) == line[start..] && Tokenization(c, texts)
    ensures LexemesFrom(c, line, start) == Success(texts)
    decreases |texts|
  {
    if texts == [] {
      assert |line[start..]| == 0;
      assert EmitEnd(c, line, start, start + 1) == None;
    } else {
      var w := texts[0];
      var e := start + |w|;
      ConcatFirst(line, start, texts);
      forall k | start < k < e
        ensures !Boundary(c, line, start, k)
      {
        assert line[start..k] == w[..k - start];
        assert line[start..k + 1] == w[..k - start + 1];
        assert !StopsAt(c, w, k - start);
      }
      if |texts| > 1 {
        ConcatFirst(line, e, texts[1..]);
        assert line[e] == texts[1][0];
        assert RejectsNext(c, texts, 0);
        assert line[start..e + 1] == w + [texts[1][0]];
        assert Boundary(c, line, start, e);
        assert EmitEnd(c, line, start, start + 1) == Some(e);
        TokenizationTail(c, texts);
        LexemesUnique(c, line, e, texts[1..]);
        assert texts == [w] + texts[1..];
      } else {
        assert e == |line|;
        assert line[start..] == w;
        assert EmitEnd(c, line, start, start + 1) == None;
        assert texts == [line[start..]];
      }
    }
  }

  /** A munched accepted text in front of a tokenization, rejected when
      extended by the next text's first character, makes a tokenization. */
  lemma TokenizationCons(c: Classifier, w: string, rest: seq<string>)
    requires |w| > 0 && c(w).Some? && Munched(c, w) && Tokenization(c, rest)
    requires rest != [] ==> |rest[0]| > 0 && c(w + [rest[0][0]]).None?
    ensures Tokenization(c, [w] + rest)
  {
    var texts := [w] + rest;
    forall i | 0 <= i < |texts| - 1
      ensures RejectsNext(c, texts, i)
    {
      if i > 0 {
        assert RejectsNext(c, rest, i - 1);
        assert texts[i] == rest[i - 1] && texts[i + 1] == rest[i];
      }
    }
    forall i | 0 <= i < |texts|
      ensures |texts[i]| > 0 && c(texts[i]).Some? && Munched(c, texts[i])
    {
      if i > 0 {
        assert texts[i] == rest[i - 1];
      }
    }
  }

  /** The texts after the first one are a tokenization too. */
  lemma TokenizationTail(c: Classifier, texts: seq<string>)
    requires texts != [] && Tokenization(c, texts)
    ensures Tokenization(c, texts[1..])
  {
    var tail := texts[1..];
    forall i | 0 <= i < |tail| - 1
      ensures RejectsNext(c, tail, i)
    {
      assert RejectsNext(c, texts, i + 1);
      assert tail[i] == texts[i + 1] && tail[i + 1] == texts[i + 2];
    }
    forall i | 0 <= i < |tail|
      ensures |tail[i]| > 0 && c(tail[i]).Some? && Munched(c, tail[i])
    {
      assert tail[i] == texts[i + 1];
    }
  }

  /** The result of a string argument: an empty or `//` line yields
      nothing; otherwise the non-whitespace tokens of the unique
      tokenization of the line, in order, or InvalidTokens when the line
      has none. */
  lemma LexLineSpec(c: Classifier, stores: string -> bool, line: string, texts: seq<string>)
    requires !SkippedLine(line) && Concat(texts) == line && Tokenization(c, texts)
    ensures LexLine(c, stores, line) == Success(Filter(KeepToken, TokensOf(c, stores, texts)))
  {
    assert line[0..] == line;
    LexemesUnique(c, line, 0, texts);
  }

  /** No argument's result holds a whitespace token. */
  lemma {:induction false} TokenizeHasNoWhitespace(c: Classifier, stores: string -> bool, input: Input)
    requires Tokenize(c, stores, input).Success?
    ensures forall t :: t in Tokenize(c, stores, input).value ==> KeepToken(t)
    decreases input, 1, 0
  {
    match input
    case Str(line) =>
      if !SkippedLine(line) {
        var texts := LexemesFrom(c, line, 0).value;
        forall t | t in Tokenize(c, stores, input).value
          ensures KeepToken(t)
        {
          FilterKeepsSatisfying(KeepToken, TokensOf(c, stores, texts), t);
        }
      }
    case List(items) =>
      ItemsHaveNoWhitespace(c, stores, items, |items|);
  }

  lemma {:induction false} ItemsHaveNoWhitespace(c: Classifier, stores: string -> bool, items: seq<Input>, n: nat)
    requires n <= |items| && TokenizeItems(c, stores, items, n).Success?
    ensures forall t :: t in TokenizeItems(c, stores, items, n).value ==> KeepToken(t)
    decreases List(items), 0, n
  {
    if n > 0 {
      ItemsHaveNoWhitespace(c, stores, items, n - 1);
      assert items[n - 1] in items;
      TokenizeHasNoWhitespace(c, stores, items[n - 1]);
    }
  }

  /** A list argument is the in-order concatenation of its parts: the
      tokens of `xs + ys` are those of `xs` followed by those of `ys`,
      and a one-item list yields its item's tokens. */
  lemma {:induction false} TokenizeItemsAppend(c: Classifier, stores: string -> bool, xs: seq<Input>, ys: seq<Input>, n: nat)
    requires n <= |ys|
    ensures TokenizeItems(c, stores, xs + ys, |xs| + n) ==
      (var a :- TokenizeItems(c, stores, xs, |xs|);
       var b :- TokenizeItems(c, stores, ys, n);
       Success(a + b))
  {
    if n == 0 {
      TokenizeItemsPrefix(c, stores, xs, ys, |xs|);
      if TokenizeItems(c, stores, xs, |xs|).Success? {
        var a := TokenizeItems(c, stores, xs, |xs|).value;
        assert a + [] == a;
      }
    } else {
      TokenizeItemsAppend(c, stores, xs, ys, n - 1);
      assert (xs + ys)[|xs| + n - 1] == ys[n - 1];
      if TokenizeItems(c, stores, xs, |xs|).Success? && TokenizeItems(c, stores, ys, n - 1).Success? {
        var a := TokenizeItems(c, stores, xs, |xs|).value;
        var b := TokenizeItems(c, stores, ys, n - 1).value;
        if Tokenize(c, stores, ys[n - 1]).Success? {
          var m := Tokenize(c, stores, ys[n - 1]).value;
          assert a + b + m == a + (b + m);
        }
      }
    }
  }

  /** The list case over a prefix only looks at that prefix. */
  lemma {:induction false} TokenizeItemsPrefix(c: Classifier, stores: string -> bool, xs: seq<Input>, ys: seq<Input>, n: nat)
    requires n <= |xs|
    ensures TokenizeItems(c, stores, xs + ys, n) == TokenizeItems(c, stores, xs, n)
  {
    if n > 0 {
      TokenizeItemsPrefix(c, stores, xs, ys, n - 1);
      assert (xs + ys)[n - 1] == xs[n - 1];
    }
  }

  lemma SingleItem(c: Classifier, stores: string -> bool, x: Input)
    ensures Tokenize(c, stores, List([x])) == Tokenize(c, stores, x)
  {
    assert TokenizeItems(c, stores, [x], 0) == Success([]);
    if Tokenize(c, stores, x).Success? {
      assert [] + Tokenize(c, stores, x).value == Tokenize(c, stores, x).value;
    }
  }

  /** `get_non_whitespace_tokens`. */
  method GetNonWhitespaceTokens(tokens: seq<Token>) returns (newList: seq<Token>)
    ensures newList == Filter(KeepToken, tokens)
  {
    newList := [];
    for i := 0 to |tokens|
      invariant newList == Filter(KeepToken, tokens[..i])
    {
      assert tokens[..i + 1] == tokens[..i] + [tokens[i]];
      FilterSnoc(KeepToken, tokens[..i], tokens[i]);
      if tokens[i].kind != Whitespace {
        newList := newList + [tokens[i]];
      }
    }
    assert tokens[..|tokens|] == tokens;
  }

  /** The whitespace filter keeps exactly the non-whitespace tokens, in
      their order, and filtering twice changes nothing. */
  lemma NonWhitespaceSpec(tokens: seq<Token>, t: Token)
    ensures t in Filter(KeepToken, tokens) <==> t in tokens && t.kind != Whitespace
    ensures Filter(KeepToken, Filter(KeepToken, tokens)) == Filter(KeepToken, tokens)
  {
    FilterKeepsSatisfying(KeepToken, tokens, t);
    FilterIdempotent(KeepToken, tokens);
  }

  /** The texts `texts` followed by a scan's result. */
  function After(texts: seq<string>, r: Result<seq<string>, LexError>): Result<seq<string>, LexError>
  {
    if r.Success? then Success(texts + r.value) else r
  }

  /** A substring that ends no token moves the scan on by one character. */
  lemma ScanStep(c: Classifier, line: string, start: nat, end: nat)
    requires start < end <= |line|
    requires !(end - 1 > start && Boundary(c, line, start, end - 1))
    ensures EmitEnd(c, line, start, end) == EmitEnd(c, line, start, end + 1)
  {
  }

  /** A rejected substring after an accepted one emits the accepted one,
      and the scan goes on from its end. */
  lemma EmitStep(c: Classifier, line: string, start: nat, end: nat, texts: seq<string>)
    requires start < end - 1 && end <= |line| && Boundary(c, line, start, end - 1)
    requires EmitEnd(c, line, start, end) == EmitEnd(c, line, start, start + 1)
    ensures After(texts, LexemesFrom(c, line, start))
         == After(texts + [line[start..end - 1]], LexemesFrom(c, line, end - 1))
  {
    assert EmitEnd(c, line, start, end) == Some(end - 1);
    if LexemesFrom(c, line, end - 1).Success? {
      var rest := LexemesFrom(c, line, end - 1).value;
      assert texts + ([line[start..end - 1]] + rest) == texts + [line[start..end - 1]] + rest;
    }
  }

  /** At the end of the line the remainder is the last token, if any. */
  lemma FinalStep(c: Classifier, line: string, start: nat, texts: seq<string>)
    requires start <= |line| && EmitEnd(c, line, start, start + 1) == None
    ensures After(texts, LexemesFrom(c, line, start)) ==
      if start == |line| then Success(texts)
      else if c(line[start..]).Some? then Success(texts + [line[start..]])
      else Failure(InvalidTokens(line))
  {
    if start == |line| {
      assert texts + [] == texts;
    }
  }

  lemma TokensOfSnoc(c: Classifier, stores: string -> bool, texts: seq<string>, w: string)
    requires forall i :: 0 <= i < |texts| ==> c(texts[i]).Some?
    requires c(w).Some?
    ensures TokensOf(c, stores, texts + [w]) == TokensOf(c, stores, texts) + [CreateToken(stores, w, c(w).value)]
  {
  }

  /** What holds at the head of the scanning loop: the pointers are in
      order, the last accepted end is the one just before `end` if that
      substring was accepted, the scan from `start` has not yet passed its
      token's end, and the texts emitted so far followed by the scan from
      `start` are the whole line's. */
  ghost predicate ScanState(c: Classifier, stores: string -> bool, line: string, start: nat, end: nat,
                            last: Option<nat>, texts: seq<string>, tokens: seq<Token>)
  {
    && start < end <= |line| + 1
    && last == (if end - 1 > start && c(line[start..end - 1]).Some? then Some(end - 1) else None)
    && EmitEnd(c, line, start, end) == EmitEnd(c, line, start, start + 1)
    && After(texts, LexemesFrom(c, line, start)) == LexemesFrom(c, line, 0)
    && (forall i :: 0 <= i < |texts| ==> c(texts[i]).Some?)
    && tokens == TokensOf(c, stores, texts)
  }

  /** One turn of the scanning loop. */
  method ScanCharacter(c: Classifier, stores: string -> bool, line: string, start: nat, end: nat,
                       last: Option<nat>, ghost texts: seq<string>, tokens: seq<Token>)
    returns (start': nat, end': nat, last': Option<nat>, ghost texts': seq<string>, tokens': seq<Token>)
    requires end < |line| + 1 && ScanState(c, stores, line, start, end, last, texts, tokens)
    ensures ScanState(c, stores, line, start', end', last', texts', tokens')
    ensures end' > end || (end' == end && start' > start)
  {
    start', end', last', texts', tokens' := start, end, last, texts, tokens;
    var substring := line[start'..end'];
    var tokenType := c(substring);
    if tokenType.Some? {
      ScanStep(c, line, start', end');
      last' := Some(end');
    } else if last'.Some? {
      var tokenString := line[start'..last'.value];
      EmitStep(c, line, start', end', texts');
      TokensOfSnoc(c, stores, texts', tokenString);
      tokens' := tokens' + [CreateToken(stores, tokenString, c(tokenString).value)];
      texts' := texts' + [tokenString];
      start' := last'.value;
      end' := start';
      last' := None;
    } else {
      ScanStep(c, line, start', end');
    }
    end' := end' + 1;
  }

  /** The scanning loop of the string case: it stops with the scan from
      `start` past the end of the line without emitting, the texts emitted
      so far followed by that scan being the whole line's. */
  method ScanLine(c: Classifier, stores: string -> bool, line: string)
    returns (start: nat, ghost texts: seq<string>, tokens: seq<Token>)
    ensures start <= |line| && EmitEnd(c, line, start, start + 1) == None
    ensures After(texts, LexemesFrom(c, line, start)) == LexemesFrom(c, line, 0)
    ensures forall i :: 0 <= i < |texts| ==> c(texts[i]).Some?
    ensures tokens == TokensOf(c, stores, texts)
  {
    var startPointer: nat := 0;
    var endPointer: nat := 1;
    var lastSuccessfulPointer: Option<nat> := None;
    texts, tokens := [], [];
    assert After(texts, LexemesFrom(c, line, 0)) == LexemesFrom(c, line, 0) by {
      if LexemesFrom(c, line, 0).Success? {
        assert [] + LexemesFrom(c, line, 0).value == LexemesFrom(c, line, 0).value;
      }
    }
    while endPointer < |line| + 1
      invariant ScanState(c, stores, line, startPointer, endPointer, lastSuccessfulPointer, texts, tokens)
      decreases |line| + 1 - endPointer, |line| - startPointer
    {
      startPointer, endPointer, lastSuccessfulPointer, texts, tokens :=
        ScanCharacter(c, stores, line, startPointer, endPointer, lastSuccessfulPointer, texts, tokens);
    }
    start := startPointer;
  }

  /** The string case of `convert_into_tokens`. */
  method ConvertLine(c: Classifier, stores: string -> bool, line: string) returns (r: Result<seq<Token>, LexError>)
    ensures r == LexLine(c, stores, line)
  {
    var tokens: seq<Token> := [];
    if |line| == 0 || (|line| >= 2 && line[..2] == "//") {
      return Success(tokens);
    }
    var startPointer: nat;
    ghost var texts: seq<string>;
    startPointer, texts, tokens := ScanLine(c, stores, line);
    FinalStep(c, line, startPointer, texts);
    var remainingString := line[startPointer..];
    if |remainingString| > 0 {
      var tokenType := c(remainingString);
      if tokenType.Some? {
        TokensOfSnoc(c, stores, texts, remainingString);
        tokens := tokens + [CreateToken(stores, remainingString, tokenType.value)];
        texts := texts + [remainingString];
      } else {
        return Failure(InvalidTokens(line));
      }
    }
    var nonWhitespaceList := GetNonWhitespaceTokens(tokens);
    return Success(nonWhitespaceList);
  }

  /** `convert_into_tokens`: a string is cut into tokens; a list's items
      are converted in order and their tokens joined; anything else
      raises. */
  method ConvertIntoTokens(c: Classifier, stores: string -> bool, input: Input) returns (r: Result<seq<Token>, LexError>)
    ensures r == Tokenize(c, stores, input)
    decreases input
  {
    match input
    case Str(line) =>
      r := ConvertLine(c, stores, line);
    case List(lines) =>
      var tokens: seq<Token> := [];
      for i := 0 to |lines|
        invariant TokenizeItems(c, stores, lines, i) == Success(tokens)
      {
        assert lines[i] in lines;
        var lineTokens := ConvertIntoTokens(c, stores, lines[i]);
        if lineTokens.Failure? {
          ItemsFailurePersists(c, stores, lines, i + 1, |lines|);
          return Failure(lineTokens.error);
        }
        tokens := tokens + lineTokens.value;
      }
      r := Success(tokens);
    case Other =>
      r := Failure(InvalidInputType);
  }

  /** Once an item has raised, the list raises that error. */
  lemma {:induction false} ItemsFailurePersists(c: Classifier, stores: string -> bool, items: seq<Input>, n: nat, m: nat)
    requires n <= m <= |items| && TokenizeItems(c, stores, items, n).Failure?
    ensures TokenizeItems(c, stores, items, m) == Failure(TokenizeItems(c, stores, items, n).error)
  {
    if m > n {
      ItemsFailurePersists(c, stores, items, n, m - 1);
    }
  }
}
