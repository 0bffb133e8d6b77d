/** The parser accepts nothing but the grammar: every head it takes is the text of a message, and the request
    it leaves is that message's meaning. */
module HttpGrammar {
  import opened HttpSpec
  import opened HttpCalls
  import opened HttpPrint

  // ---------------------------------------------------------------- lists that grow at the end

  /** Parameters with a separator behind each. */
  function OpenParams(ps: seq<Pair>): string {
    if ps == [] then "" else ps[0].0 + "=" + ps[0].1 + "&" + OpenParams(ps[1..])
  }

  lemma {:induction false} OpenParamsGrow(ps: seq<Pair>, kv: Pair)
    ensures OpenParams(ps + [kv]) == OpenParams(ps) + (kv.0 + "=" + kv.1 + "&")
    decreases |ps|
  {
    if ps == [] {
      assert ps + [kv] == [kv] && [kv][1..] == [];
    } else {
      assert (ps + [kv])[1..] == ps[1..] + [kv];
      OpenParamsGrow(ps[1..], kv);
    }
  }

  lemma {:induction false} ParamsClose(ps: seq<Pair>, kv: Pair)
    ensures PrintParams(ps + [kv]) == OpenParams(ps) + (kv.0 + "=" + kv.1)
    decreases |ps|
  {
    if ps == [] {
      assert ps + [kv] == [kv] && [kv][1..] == [];
    } else {
      assert (ps + [kv])[1..] == ps[1..] + [kv];
      ParamsClose(ps[1..], kv);
    }
  }

  lemma {:induction false} AddAllGrows(m: map<string, string>, ps: seq<Pair>, kv: Pair)
    ensures AddAll(m, ps + [kv]) == AddAll(m, ps)[kv.0 := kv.1]
    decreases |ps|
  {
    if ps == [] {
      assert ps + [kv] == [kv] && [kv][1..] == [];
    } else {
      assert (ps + [kv])[1..] == ps[1..] + [kv];
      AddAllGrows(m[ps[0].0 := ps[0].1], ps[1..], kv);
    }
  }

  lemma {:induction false} FieldsGrow(hs: seq<Field>, h: Field)
    ensures PrintFields(hs + [h]) == PrintFields(hs) + PrintField(h)
    ensures PairsOf(hs + [h]) == PairsOf(hs) + [(h.name, h.value)]
    decreases |hs|
  {
    if hs == [] {
      assert hs + [h] == [h] && [h][1..] == [];
    } else {
      assert (hs + [h])[1..] == hs[1..] + [h];
      FieldsGrow(hs[1..], h);
    }
  }

  // ---------------------------------------------------------------- what has been read so far

  function Query(m: Message): string {
    PrintBegin(m) + (m.path + "?" + OpenParams(m.params))
  }

  function Target(m: Message): string {
    PrintBegin(m) + (PrintTarget(m) + [m.blank2])
  }

  function Lines(m: Message): string {
    PrintLine(m) + PrintFields(m.headers)
  }

  /** How many parts of a message are there in a state. */
  function Stage(s: ParseState): nat {
    match s
    case Start => 0
    case InMethod => 1
    case BeforeUrl | InUrl => 2
    case BeforeParamKey | InParamKey | BeforeParamValue | InParamValue => 3
    case BeforeProtocol | InProtocol => 4
    case BeforeVersion | InVersion => 5
    case _ => 6
  }

  /** The text of the finished parts and of the token being read; `b` is the blank behind the colon. */
  function Spelt(m: Message, b: char, p: Parse): string {
    match p.state
    case Start => m.lead
    case InMethod => m.lead + p.word
    case BeforeUrl | InUrl => PrintBegin(m) + p.word
    case BeforeParamKey | InParamKey => Query(m) + p.word
    case BeforeParamValue | InParamValue => Query(m) + (p.key + "=" + p.word)
    case BeforeProtocol | InProtocol => Target(m) + p.word
    case BeforeVersion | InVersion => Target(m) + (m.protocol + "/" + p.word)
    case BeforeHeaderValue => Lines(m) + (p.key + ":" + p.word)
    case InHeaderValue => Lines(m) + (p.key + ":" + [b] + p.word)
    case _ => Lines(m) + p.word
  }

  predicate PartsOk(m: Message, n: nat) {
    && IsLead(m.lead)
    && (n >= 2 ==> IsWord(m.verb) && IsBlank(m.blank1))
    && (n >= 3 ==> IsUrlText(m.path) && m.path[0] == '/' && AreParams(m.params))
    && (n >= 4 ==> IsBlank(m.blank2))
    && (n >= 5 ==> IsWord(m.protocol))
    && (n >= 6 ==> IsVersion(m.version) && AreFields(m.headers))
  }

  predicate WordOk(b: char, p: Parse) {
    match p.state
    case InMethod | InProtocol => IsWord(p.word)
    case InUrl => IsUrlText(p.word) && p.word[0] == '/'
    case InParamKey => IsUrlText(p.word)
    case BeforeParamValue => IsUrlText(p.key) && p.word == ""
    case InParamValue => IsUrlText(p.key) && IsUrlText(p.word)
    case InVersion => IsVersion(p.word)
    case InHeaderKey => IsName(p.word)
    case BeforeHeaderValue => IsName(p.key) && p.word == ""
    case InHeaderValue => IsName(p.key) && IsBlank(b) && IsValue(p.word)
    case SeenCrLfCr => p.word == [CR]
    case _ => p.word == ""
  }

  function RequestOf(m: Message, n: nat): Request {
    Request(if n >= 2 then VerbOf(m.verb) else NoVerb, if n >= 3 then m.path else "",
            if n >= 6 then VersionOf(m.version) else NoVersion, if n >= 5 then m.protocol else "",
            if n >= 3 then AddAll(map[], m.params) else map[],
            if n >= 6 then AddAll(map[], PairsOf(m.headers)) else map[], "")
  }

  /** The bytes `done` have brought the parser to `p`, and `m` has their parts. */
  ghost predicate Fits(m: Message, b: char, done: string, p: Parse) {
    && !IsFinal(p.state) && !p.state.InBody? && !p.state.InHeader?
    && (if p.state.SeenCr? then done + [LF] == Lines(m) else done == Spelt(m, b, p))
    && PartsOk(m, Stage(p.state)) && WordOk(b, p) && p.req == RequestOf(m, Stage(p.state))
  }

  // ---------------------------------------------------------------- one byte

  /** The path is done. */
  lemma EndOfPath(m: Message, b: char, done: string, p: Parse, c: char) returns (m': Message)
    requires Fits(m, b, done, p) && p.state.InUrl? && (c == '?' || IsBlank(c))
    ensures Fits(m', b, done + [c], StepLine(p, c))
  {
    m' := m.(path := p.word, params := [], blank2 := c);
    if c == '?' {
      assert done + [c] == PrintBegin(m) + (p.word + "?" + "") + "";
    } else {
      assert done + [c] == PrintBegin(m) + (p.word + "" + [c]) + "";
    }
  }

  lemma AdvanceLine(m: Message, b: char, done: string, p: Parse, c: char) returns (m': Message)
    requires Fits(m, b, done, p) && Stage(p.state) <= 2 && !IsFinal(StepLine(p, c).state)
    ensures Fits(m', b, done + [c], StepLine(p, c))
  {
    m' := m;
    var p' := StepLine(p, c);
    if p'.state.Start? {
      m' := m.(lead := m.lead + [c]);
    } else if p'.state.BeforeUrl? {
      m' := m.(verb := p.word, blank1 := c);
    } else if p'.state.BeforeParamKey? || p'.state.BeforeProtocol? {
      m' := EndOfPath(m, b, done, p, c);
    } else {
      assert p.state.Start? || p'.word == p.word + [c];
    }
  }

  /** A parameter is done. */
  lemma EndOfParam(m: Message, b: char, done: string, p: Parse, c: char) returns (m': Message)
    requires Fits(m, b, done, p) && p.state.InParamValue? && (c == '&' || IsBlank(c))
    ensures Fits(m', b, done + [c], StepParams(p, c))
  {
    var kv, q := (p.key, p.word), p.key + "=" + p.word;
    m' := m.(params := m.params + [kv], blank2 := c);
    AddAllGrows(map[], m.params, kv);
    if c == '&' {
      OpenParamsGrow(m.params, kv);
      OpenParamText(PrintBegin(m), m.path, OpenParams(m.params), q);
    } else {
      ParamsClose(m.params, kv);
      LastParamText(PrintBegin(m), m.path, OpenParams(m.params), q, c);
    }
  }

  lemma OpenParamText(begin: string, path: string, params: string, q: string)
    ensures begin + (path + "?" + params) + q + "&" == begin + (path + "?" + (params + (q + "&"))) + ""
  {
  }

  lemma LastParamText(begin: string, path: string, params: string, q: string, c: char)
    ensures begin + (path + "?" + params) + q + [c] == begin + (path + ("?" + (params + q)) + [c]) + ""
  {
  }

  lemma AdvanceParams(m: Message, b: char, done: string, p: Parse, c: char) returns (m': Message)
    requires Fits(m, b, done, p) && Stage(p.state) == 3 && !IsFinal(StepParams(p, c).state)
    ensures Fits(m', b, done + [c], StepParams(p, c))
  {
    m' := m;
    if p.state.InParamValue? && (c == '&' || IsBlank(c)) {
      m' := EndOfParam(m, b, done, p, c);
    }
  }

  lemma AdvanceProtocol(m: Message, b: char, done: string, p: Parse, c: char) returns (m': Message)
    requires Fits(m, b, done, p) && 4 <= Stage(p.state) <= 5 && !IsFinal(StepProtocol(p, c).state)
    ensures Fits(m', b, done + [c], StepProtocol(p, c))
  {
    m' := m;
    var p' := StepProtocol(p, c);
    if p'.state.BeforeVersion? {
      m' := m.(protocol := p.word);
    } else if p'.state.SeenCr? {
      m' := EndOfVersion(m, b, done, p);
    }
  }

  /** The request line is done. */
  lemma EndOfVersion(m: Message, b: char, done: string, p: Parse) returns (m': Message)
    requires Fits(m, b, done, p) && p.state.InVersion?
    ensures Fits(m', b, done + [CR], StepProtocol(p, CR))
  {
    m' := m.(version := p.word, headers := []);
    assert done + [CR] + [LF] == Target(m) + (m.protocol + "/" + p.word + CRLF) + "";
  }

  lemma AdvanceLineEnd(m: Message, b: char, done: string, p: Parse, c: char)
    requires Fits(m, b, done, p) && InLineEnd(p.state) && !p.state.SeenCrLfCr? && !IsFinal(StepLineEnd(p, c).state)
    ensures Fits(m, b, done + [c], StepLineEnd(p, c))
  {
    if p.state.SeenCr? {
      assert Lines(m) + "" == Lines(m);
    }
  }

  /** A header is done. */
  lemma EndOfHeader(m: Message, b: char, done: string, p: Parse) returns (m': Message)
    requires Fits(m, b, done, p) && p.state.InHeaderValue?
    ensures Fits(m', b, done + [CR], StepHeader(p, CR))
  {
    var h := Field(p.key, b, p.word);
    m' := m.(headers := m.headers + [h]);
    FieldsGrow(m.headers, h);
    AddAllGrows(map[], PairsOf(m.headers), (h.name, h.value));
    HeaderText(PrintLine(m), PrintFields(m.headers), h);
  }

  lemma HeaderText(line: string, fields: string, h: Field)
    ensures line + fields + (h.name + ":" + [h.blank] + h.value) + [CR] + [LF] == line + (fields + PrintField(h))
  {
  }

  lemma AdvanceHeader(m: Message, b: char, done: string, p: Parse, c: char) returns (m': Message, b': char)
    requires Fits(m, b, done, p) && InHeaderLine(p.state) && !IsFinal(StepHeader(p, c).state)
    ensures Fits(m', b', done + [c], StepHeader(p, c))
  {
    m', b' := m, b;
    if p.state.BeforeHeaderValue? {
      b' := c;
      BlankFits(m, b, done, p, c);
    } else if p.state.InHeaderValue? && c == CR {
      m' := EndOfHeader(m, b, done, p);
    } else if p.state.InHeaderKey? {
      NameByteFits(m, b, done, p, c);
    } else {
      ValueByteFits(m, b, done, p, c);
    }
  }

  lemma BlankFits(m: Message, b: char, done: string, p: Parse, c: char)
    requires Fits(m, b, done, p) && p.state.BeforeHeaderValue? && IsBlank(c)
    ensures Fits(m, c, done + [c], StepHeader(p, c))
  {
    assert p.key + ":" + [c] + "" == p.key + ":" + "" + [c];
  }

  lemma NameByteFits(m: Message, b: char, done: string, p: Parse, c: char)
    requires Fits(m, b, done, p) && p.state.InHeaderKey? && !IsFinal(StepHeader(p, c).state)
    ensures Fits(m, b, done + [c], StepHeader(p, c))
  {
  }

  lemma ValueByteFits(m: Message, b: char, done: string, p: Parse, c: char)
    requires Fits(m, b, done, p) && p.state.InHeaderValue? && c != CR
    ensures Fits(m, b, done + [c], StepHeader(p, c))
  {
  }

  lemma Advance(m: Message, b: char, done: string, p: Parse, c: char) returns (m': Message, b': char)
    requires Fits(m, b, done, p) && !Ends(p, c) && !IsFinal(StepInside(p, c).state)
    ensures Fits(m', b', done + [c], StepInside(p, c))
  {
    b' := b;
    if InLineEnd(p.state) {
      m' := m;
      AdvanceLineEnd(m, b, done, p, c);
    } else if InHeaderLine(p.state) {
      m', b' := AdvanceHeader(m, b, done, p, c);
    } else if InParams(p.state) {
      m' := AdvanceParams(m, b, done, p, c);
    } else if InProtocolPart(p.state) {
      m' := AdvanceProtocol(m, b, done, p, c);
    } else {
      m' := AdvanceLine(m, b, done, p, c);
    }
  }

  // ---------------------------------------------------------------- whole heads

  /** `w` is the head of a message, and `req` what it means. */
  ghost predicate IsTextOf(m: Message, w: string, req: Request) {
    IsGrammatical(m) && PrintHead(m) == w && req == Meaning(m).(body := "")
  }

  lemma LastByteFits(m: Message, b: char, done: string, p: Parse)
    requires Fits(m, b, done, p) && p.state.SeenCrLfCr?
    ensures IsTextOf(m, done + [LF], p.req)
  {
    assert done + [LF] == Lines(m) + CRLF;
  }

  lemma HeadGoesOn(p: Parse, rest: string)
    requires IsHead(p, rest) && !Ends(p, rest[0])
    ensures var q := StepInside(p, rest[0]);
            !IsFinal(q.state) && IsHead(q, rest[1..]) && AtEnd(p, rest) == AtEnd(q, rest[1..])
  {
    assert Step(p, rest[0], true) == StepInside(p, rest[0]);
  }

  lemma NextFits(m: Message, b: char, done: string, p: Parse, rest: string)
    returns (m1: Message, b1: char, done1: string, p1: Parse, rest1: string)
    requires Fits(m, b, done, p) && IsHead(p, rest) && !Ends(p, rest[0])
    ensures Fits(m1, b1, done1, p1) && IsHead(p1, rest1) && |rest1| < |rest|
    ensures done1 + rest1 == done + rest && AtEnd(p1, rest1) == AtEnd(p, rest)
  {
    var c := rest[0];
    done1, p1, rest1 := done + [c], StepInside(p, c), rest[1..];
    HeadGoesOn(p, rest);
    m1, b1 := Advance(m, b, done, p, c);
    NextText(done, rest);
  }

  lemma NextText(done: string, rest: string)
    requires rest != ""
    ensures (done + [rest[0]]) + rest[1..] == done + rest
  {
  }

  lemma {:induction false} RestFits(m: Message, b: char, done: string, p: Parse, rest: string, w: string, req: Request)
    requires Fits(m, b, done, p) && IsHead(p, rest) && w == done + rest && req == AtEnd(p, rest).req
    ensures exists m' :: IsTextOf(m', w, req)
    decreases |rest|
  {
    var c := rest[0];
    if Ends(p, c) {
      LastByteFits(m, b, done, p);
      assert rest == [LF];
      assert IsTextOf(m, w, req);
    } else {
      var m1, b1, done1, p1, rest1 := NextFits(m, b, done, p, rest);
      RestFits(m1, b1, done1, p1, rest1, w, req);
    }
  }

  /** A head is accepted if and only if the grammar has it, and the request left is its meaning. */
  lemma AcceptsTheGrammar(w: string)
    ensures IsHead(INIT, w) <==> exists m :: IsGrammatical(m) && PrintHead(m) == w
    ensures forall m :: IsGrammatical(m) && PrintHead(m) == w ==> AtEnd(INIT, w).req == Meaning(m).(body := "")
  {
    if IsHead(INIT, w) {
      assert "" + w == w;
      RestFits(Message("", "", ' ', "", [], ' ', "", "", [], ""), ' ', "", INIT, w, w, AtEnd(INIT, w).req);
      var m :| IsTextOf(m, w, AtEnd(INIT, w).req);
    }
    forall m | IsGrammatical(m) && PrintHead(m) == w
      ensures IsHead(INIT, w) && AtEnd(INIT, w).req == Meaning(m).(body := "")
    {
      var _ := HeadParses(m);
    }
  }
}
