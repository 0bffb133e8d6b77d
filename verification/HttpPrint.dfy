/** The grammar of requests, after sections 3 and 5 of RFC 9112: one blank, a space or a tab, in each place,
    blanks and line ends before the request, and at least one letter, digit or character where something
    has to be.  Parsing undoes printing. */
module HttpPrint {
  import opened Basics
  import opened Words
  import opened HttpSpec
  import opened HttpCalls
  import opened NumberText
  import opened DigitGen

  type Pair = (string, string)

  datatype Field = Field(name: string, blank: char, value: string)

  datatype Message = Message(lead: string, verb: string, blank1: char, path: string, params: seq<Pair>, blank2: char,
                             protocol: string, version: string, headers: seq<Field>, body: string)

  const CRLF := [CR, LF]

  function PrintParams(ps: seq<Pair>): string {
    if ps == [] then ""
    else ps[0].0 + "=" + ps[0].1 + (if |ps| == 1 then "" else "&" + PrintParams(ps[1..]))
  }

  function PrintField(h: Field): string {
    h.name + ":" + [h.blank] + h.value + CRLF
  }

  function PrintFields(hs: seq<Field>): string {
    if hs == [] then "" else PrintField(hs[0]) + PrintFields(hs[1..])
  }

  function PrintTarget(m: Message): string {
    m.path + if m.params == [] then "" else "?" + PrintParams(m.params)
  }

  function PrintBegin(m: Message): string {
    m.lead + m.verb + [m.blank1]
  }

  function PrintEnd(m: Message): string {
    m.protocol + "/" + m.version + CRLF
  }

  function PrintLine(m: Message): string {
    PrintBegin(m) + (PrintTarget(m) + [m.blank2]) + PrintEnd(m)
  }

  function PrintHead(m: Message): string {
    PrintLine(m) + PrintFields(m.headers) + CRLF
  }

  function Print(m: Message): string {
    PrintHead(m) + m.body
  }

  // ---------------------------------------------------------------- what can be printed

  predicate IsWord(s: string) {
    s != "" && forall i :: 0 <= i < |s| ==> IsUpper(s[i])
  }

  predicate IsUrlText(s: string) {
    s != "" && forall i :: 0 <= i < |s| ==> !IsInvalidUrlChar(s[i])
  }

  predicate IsVersion(s: string) {
    s != "" && IsDigit(s[0]) && forall i :: 0 < i < |s| ==> IsDigit(s[i]) || s[i] == '.'
  }

  predicate IsLead(s: string) {
    forall i :: 0 <= i < |s| ==> IsBlank(s[i]) || s[i] == CR || s[i] == LF
  }

  predicate IsName(s: string) {
    && s != "" && (forall i :: 0 <= i < |s| ==> !IsInvalidHeaderKeyChar(s[i]))
    && (forall i :: 0 < i < |s| ==> s[i] != ':')
  }

  predicate IsValue(s: string) {
    forall i :: 0 <= i < |s| ==> s[i] != CR
  }

  predicate IsField(h: Field) {
    IsName(h.name) && IsBlank(h.blank) && IsValue(h.value)
  }

  function PairsOf(hs: seq<Field>): seq<Pair> {
    if hs == [] then [] else [(hs[0].name, hs[0].value)] + PairsOf(hs[1..])
  }

  /** Pairs put into a map in order. */
  function AddAll(m: map<string, string>, ps: seq<Pair>): map<string, string>
    decreases |ps|
  {
    if ps == [] then m else AddAll(m[ps[0].0 := ps[0].1], ps[1..])
  }

  /** The body has the length its header says, or there is neither. */
  predicate LengthFits(m: Message) {
    var hs := AddAll(map[], PairsOf(m.headers));
    if CONTENT_LENGTH in hs then Atoi(hs[CONTENT_LENGTH]) == |m.body| < TWO_64 else m.body == ""
  }

  predicate AreParams(ps: seq<Pair>) {
    forall i :: 0 <= i < |ps| ==> IsUrlText(ps[i].0) && IsUrlText(ps[i].1)
  }

  predicate AreFields(hs: seq<Field>) {
    forall i :: 0 <= i < |hs| ==> IsField(hs[i])
  }

  /** The grammar of heads. */
  predicate IsGrammatical(m: Message) {
    && IsLead(m.lead) && IsWord(m.verb) && IsBlank(m.blank1)
    && IsUrlText(m.path) && m.path[0] == '/' && AreParams(m.params) && IsBlank(m.blank2)
    && IsWord(m.protocol) && IsVersion(m.version) && AreFields(m.headers)
  }

  predicate IsPrintable(m: Message) {
    IsGrammatical(m) && LengthFits(m)
  }

  function Meaning(m: Message): Request {
    Request(VerbOf(m.verb), m.path, VersionOf(m.version), m.protocol, AddAll(map[], m.params),
            AddAll(map[], PairsOf(m.headers)), m.body)
  }

  /** Of pairs with one key, the last counts. */
  lemma {:induction false} LastValueCounts(m: map<string, string>, ps: seq<Pair>, i: nat)
    requires i < |ps| && forall j :: i < j < |ps| ==> ps[j].0 != ps[i].0
    ensures ps[i].0 in AddAll(m, ps) && AddAll(m, ps)[ps[i].0] == ps[i].1
    decreases |ps|
  {
    if i > 0 {
      LastValueCounts(m[ps[0].0 := ps[0].1], ps[1..], i - 1);
    } else {
      OthersStay(m[ps[0].0 := ps[0].1], ps[1..], ps[0].0);
    }
  }

  lemma {:induction false} OthersStay(m: map<string, string>, ps: seq<Pair>, key: string)
    requires forall j :: 0 <= j < |ps| ==> ps[j].0 != key
    ensures key in AddAll(m, ps) <==> key in m
    ensures key in m ==> AddAll(m, ps)[key] == m[key]
    decreases |ps|
  {
    if ps != [] {
      OthersStay(m[ps[0].0 := ps[0].1], ps[1..], key);
    }
  }

  /** `getParamByKey`, which looks among the headers. */
  function ParamByKey(req: Request, key: string): string {
    if key in req.headers then req.headers[key] else ""
  }

  /** So a parameter of a request is found if and only if there is a header of its name that counts and has its
      value. */
  lemma ParamFoundIffHeader(m: Message, i: nat)
    requires IsGrammatical(m) && i < |m.params| && forall j :: i < j < |m.params| ==> m.params[j].0 != m.params[i].0
    ensures var (key, value) := m.params[i];
            && key in Meaning(m).params && Meaning(m).params[key] == value
            && (ParamByKey(Meaning(m), key) == value <==>
                  exists k :: 0 <= k < |m.headers| && IsCounted(m, k, key, value))
  {
    var (key, value) := m.params[i];
    LastValueCounts(map[], m.params, i);
    PairsOfAt(m.headers);
    if k :| 0 <= k < |m.headers| && IsCounted(m, k, key, value) {
      LastValueCounts(map[], PairsOf(m.headers), k);
    }
    if ParamByKey(Meaning(m), key) == value {
      if forall j :: 0 <= j < |m.headers| ==> PairsOf(m.headers)[j].0 != key {
        OthersStay(map[], PairsOf(m.headers), key);
      }
      var k := LastPlace(PairsOf(m.headers), key);
      LastValueCounts(map[], PairsOf(m.headers), k);
      assert IsCounted(m, k, key, value);
    }
  }

  /** The header is the last of its name. */
  ghost predicate IsCounted(m: Message, k: nat, name: string, value: string)
    requires k < |m.headers|
  {
    && m.headers[k].name == name && m.headers[k].value == value
    && forall j :: k < j < |m.headers| ==> m.headers[j].name != name
  }

  lemma {:induction false} PairsOfAt(hs: seq<Field>)
    ensures |PairsOf(hs)| == |hs|
    ensures forall k :: 0 <= k < |hs| ==> PairsOf(hs)[k] == (hs[k].name, hs[k].value)
  {
    if hs != [] {
      PairsOfAt(hs[1..]);
    }
  }

  lemma {:induction false} LastPlace(ps: seq<Pair>, key: string) returns (k: nat)
    requires exists j :: 0 <= j < |ps| && ps[j].0 == key
    ensures k < |ps| && ps[k].0 == key && forall j :: k < j < |ps| ==> ps[j].0 != key
  {
    k := |ps| - 1;
    if ps[k].0 != key {
      k := LastPlace(ps[..k], key);
    }
  }

  // ---------------------------------------------------------------- runs over parts of a head

  /** The bytes `w`, none of which ends the head, take the parser from `p` to `q`. */
  predicate Reaches(p: Parse, w: string, q: Parse)
    decreases |w|
  {
    if w == "" then p == q
    else !IsFinal(p.state) && !p.state.InBody? && !Ends(p, w[0]) && Reaches(Step(p, w[0], true), w[1..], q)
  }

  lemma {:induction false} ReachesAppend(p: Parse, x: string, q: Parse, y: string, r: Parse)
    requires Reaches(p, x, q) && Reaches(q, y, r)
    ensures Reaches(p, x + y, r)
    decreases |x|
  {
    if x == "" {
      assert x + y == y;
    } else {
      assert (x + y)[1..] == x[1..] + y;
      ReachesAppend(Step(p, x[0], true), x[1..], q, y, r);
    }
  }

  /** One more byte. */
  lemma ReachesThen(p: Parse, x: string, q: Parse, c: char)
    requires Reaches(p, x, q) && !IsFinal(q.state) && !q.state.InBody? && !Ends(q, c)
    ensures Reaches(p, x + [c], Step(q, c, true))
  {
    assert [c][1..] == "";
    assert Reaches(q, [c], Step(q, c, true));
    ReachesAppend(p, x, q, [c], Step(q, c, true));
  }

  lemma {:induction false} HeadReached(p: Parse, w: string, q: Parse)
    requires Reaches(p, w, q) && q.state.SeenCrLfCr?
    ensures IsHead(p, w + [LF]) && AtEnd(p, w + [LF]) == q
    decreases |w|
  {
    if w == "" {
      assert w + [LF] == [LF];
    } else {
      assert (w + [LF])[1..] == w[1..] + [LF];
      HeadReached(Step(p, w[0], true), w[1..], q);
    }
  }

  /** Bytes that only make the word longer. */
  predicate IsPlain(state: ParseState, c: char) {
    match state
    case InMethod | InProtocol => IsUpper(c)
    case InUrl | InParamKey | InParamValue => !IsInvalidUrlChar(c)
    case InVersion => IsDigit(c) || c == '.'
    case InHeaderKey => !IsInvalidHeaderKeyChar(c) && c != ':'
    case InHeaderValue => c != CR
    case _ => false
  }

  lemma StepPlain(p: Parse, c: char)
    requires IsPlain(p.state, c)
    ensures !IsFinal(p.state) && !p.state.InBody? && !Ends(p, c) && Step(p, c, true) == Keep(p, c, p.state)
  {
  }

  lemma {:induction false} WordReached(p: Parse, w: string)
    requires forall i :: 0 <= i < |w| ==> IsPlain(p.state, w[i])
    ensures Reaches(p, w, p.(word := p.word + w))
    decreases |w|
  {
    if w == "" {
      assert p.word + w == p.word;
    } else {
      StepPlain(p, w[0]);
      WordReached(Keep(p, w[0], p.state), w[1..]);
      assert (p.word + [w[0]]) + w[1..] == p.word + w;
    }
  }

  /** A word whose first byte enters the state of the others. */
  lemma TokenReached(p: Parse, w: string, state: ParseState)
    requires w != "" && p.word == "" && !IsFinal(p.state) && !p.state.InBody? && !Ends(p, w[0])
    requires Step(p, w[0], true) == p.(state := state, word := [w[0]])
    requires forall i :: 0 < i < |w| ==> IsPlain(state, w[i])
    ensures Reaches(p, w, p.(state := state, word := w))
  {
    WordReached(p.(state := state, word := [w[0]]), w[1..]);
    assert [w[0]] + w[1..] == w;
  }

  // ---------------------------------------------------------------- the parts of a head

  lemma KeyReached(p: Parse, key: string)
    requires p.state.BeforeParamKey? && p.word == "" && IsUrlText(key)
    ensures Reaches(p, key + "=", p.(state := BeforeParamValue, key := key))
  {
    TokenReached(p, key, InParamKey);
    ReachesThen(p, key, p.(state := InParamKey, word := key), '=');
  }

  lemma ParamReached(p: Parse, kv: Pair)
    requires p.state.BeforeParamKey? && p.word == "" && IsUrlText(kv.0) && IsUrlText(kv.1)
    ensures Reaches(p, kv.0 + "=" + kv.1, p.(state := InParamValue, key := kv.0, word := kv.1))
  {
    var p1 := p.(state := BeforeParamValue, key := kv.0);
    KeyReached(p, kv.0);
    TokenReached(p1, kv.1, InParamValue);
    ReachesAppend(p, kv.0 + "=", p1, kv.1, p1.(state := InParamValue, word := kv.1));
  }

  lemma ParamsText(text: string, rest: string, blank: char)
    ensures text + ("&" + rest) + [blank] == (text + "&") + (rest + [blank])
  {
  }

  lemma {:induction false} ParamsReached(p: Parse, ps: seq<Pair>, blank: char) returns (q: Parse)
    requires p.state.BeforeParamKey? && p.word == "" && ps != [] && AreParams(ps) && IsBlank(blank)
    ensures Reaches(p, PrintParams(ps) + [blank], q)
    ensures q.state == BeforeProtocol && q.word == "" && q.need == p.need
    ensures q.req == p.req.(params := AddAll(p.req.params, ps))
    decreases |ps|
  {
    var text := ps[0].0 + "=" + ps[0].1;
    var p1 := p.(state := InParamValue, key := ps[0].0, word := ps[0].1);
    ParamReached(p, ps[0]);
    var next := if |ps| == 1 then blank else '&';
    ReachesThen(p, text, p1, next);
    q := Step(p1, next, true);
    if |ps| == 1 {
      assert PrintParams(ps) + [blank] == text + [next];
      assert ps[1..] == [];
    } else {
      var p2 := q;
      q := ParamsReached(p2, ps[1..], blank);
      ParamsText(text, PrintParams(ps[1..]), blank);
      ReachesAppend(p, text + [next], p2, PrintParams(ps[1..]) + [blank], q);
    }
  }

  lemma PathReached(p: Parse, path: string, c: char)
    requires p.state.BeforeUrl? && p.word == "" && IsUrlText(path) && path[0] == '/' && (IsBlank(c) || c == '?')
    ensures Reaches(p, path + [c], p.(state := if c == '?' then BeforeParamKey else BeforeProtocol,
                                      req := p.req.(url := path)))
  {
    var p1 := p.(state := InUrl, word := path);
    TokenReached(p, path, InUrl);
    ReachesThen(p, path, p1, c);
  }

  lemma TargetReached(p: Parse, m: Message) returns (q: Parse)
    requires IsGrammatical(m) && p.state.BeforeUrl? && p.word == ""
    ensures Reaches(p, PrintTarget(m) + [m.blank2], q)
    ensures q.state == BeforeProtocol && q.word == "" && q.need == p.need
    ensures q.req == p.req.(url := m.path, params := AddAll(p.req.params, m.params))
  {
    var next := if m.params == [] then m.blank2 else '?';
    PathReached(p, m.path, next);
    q := p.(state := if next == '?' then BeforeParamKey else BeforeProtocol, req := p.req.(url := m.path));
    if m.params == [] {
      assert PrintTarget(m) + [m.blank2] == m.path + [m.blank2];
    } else {
      var p1 := q;
      q := ParamsReached(p1, m.params, m.blank2);
      ReachesAppend(p, m.path + ['?'], p1, PrintParams(m.params) + [m.blank2], q);
      QueryText(m.path, PrintParams(m.params), m.blank2);
    }
  }

  lemma QueryText(path: string, params: string, blank: char)
    ensures (path + "?") + (params + [blank]) == path + ("?" + params) + [blank]
  {
  }

  lemma LineEndReached(p: Parse, w: string, p1: Parse)
    requires Reaches(p, w, p1) && (p1.state.InVersion? || p1.state.InHeaderValue?)
    ensures Reaches(p, w + CRLF, Step(p1, CR, true).(state := SeenCrLf))
  {
    var p2 := Step(p1, CR, true);
    ReachesThen(p, w, p1, CR);
    ReachesThen(p, w + [CR], p2, LF);
    assert w + CRLF == w + [CR] + [LF];
  }

  lemma VersionReached(p: Parse, version: string)
    requires p.state.BeforeVersion? && p.word == "" && IsVersion(version)
    ensures Reaches(p, version + CRLF, p.(state := SeenCrLf, word := "", req := p.req.(version := VersionOf(version))))
  {
    TokenReached(p, version, InVersion);
    LineEndReached(p, version, p.(state := InVersion, word := version));
  }

  lemma ProtocolReached(p: Parse, m: Message) returns (q: Parse)
    requires IsGrammatical(m) && p.state.BeforeProtocol? && p.word == ""
    ensures Reaches(p, PrintEnd(m), q)
    ensures q.state == SeenCrLf && q.word == "" && q.need == p.need
    ensures q.req == p.req.(protocol := m.protocol, version := VersionOf(m.version))
  {
    TokenReached(p, m.protocol, InProtocol);
    ReachesThen(p, m.protocol, p.(state := InProtocol, word := m.protocol), '/');
    var p1 := p.(state := BeforeVersion, req := p.req.(protocol := m.protocol));
    VersionReached(p1, m.version);
    q := p1.(state := SeenCrLf, req := p1.req.(version := VersionOf(m.version)));
    ReachesAppend(p, m.protocol + "/", p1, m.version + CRLF, q);
    assert m.protocol + "/" + (m.version + CRLF) == PrintEnd(m);
  }

  lemma {:induction false} LeadReached(p: Parse, lead: string)
    requires p.state.Start? && IsLead(lead)
    ensures Reaches(p, lead, p)
    decreases |lead|
  {
    if lead != "" {
      LeadReached(p, lead[1..]);
    }
  }

  lemma BeginReached(m: Message)
    requires IsGrammatical(m)
    ensures Reaches(INIT, PrintBegin(m), INIT.(state := BeforeUrl, req := NO_REQUEST.(verb := VerbOf(m.verb))))
  {
    LeadReached(INIT, m.lead);
    TokenReached(INIT, m.verb, InMethod);
    var p1 := INIT.(state := InMethod, word := m.verb);
    ReachesAppend(INIT, m.lead, INIT, m.verb, p1);
    ReachesThen(INIT, m.lead + m.verb, p1, m.blank1);
  }

  lemma LineReached(m: Message) returns (q: Parse)
    requires IsGrammatical(m)
    ensures Reaches(INIT, PrintLine(m), q) && q.state == SeenCrLf && q.word == "" && q.need == INIT.need
    ensures q.req == Meaning(m).(headers := map[], body := "")
  {
    BeginReached(m);
    var p1 := INIT.(state := BeforeUrl, req := NO_REQUEST.(verb := VerbOf(m.verb)));
    var p2 := TargetReached(p1, m);
    var begin, target := PrintBegin(m), PrintTarget(m) + [m.blank2];
    ReachesAppend(INIT, begin, p1, target, p2);
    q := ProtocolReached(p2, m);
    ReachesAppend(INIT, begin + target, p2, PrintEnd(m), q);
  }

  lemma ColonReached(p: Parse, name: string)
    requires p.state.SeenCrLf? && p.word == "" && IsName(name)
    ensures Reaches(p, name + ":", p.(state := BeforeHeaderValue, key := name))
  {
    TokenReached(p, name, InHeaderKey);
    ReachesThen(p, name, p.(state := InHeaderKey, word := name), ':');
  }

  lemma NameReached(p: Parse, name: string, blank: char)
    requires p.state.SeenCrLf? && p.word == "" && IsName(name) && IsBlank(blank)
    ensures Reaches(p, name + ":" + [blank], p.(state := InHeaderValue, key := name, word := ""))
  {
    ColonReached(p, name);
    ReachesThen(p, name + ":", p.(state := BeforeHeaderValue, key := name), blank);
  }

  lemma ValueReached(p: Parse, value: string)
    requires p.state.InHeaderValue? && p.word == "" && forall i :: 0 <= i < |value| ==> value[i] != CR
    ensures Reaches(p, value + CRLF, p.(state := SeenCrLf, word := "",
                                        req := p.req.(headers := p.req.headers[p.key := value])))
  {
    WordReached(p, value);
    assert "" + value == value;
    LineEndReached(p, value, p.(word := value));
  }

  lemma FieldReached(p: Parse, h: Field) returns (q: Parse)
    requires p.state.SeenCrLf? && p.word == "" && IsField(h)
    ensures Reaches(p, PrintField(h), q) && q.state == SeenCrLf && q.word == "" && q.need == p.need
    ensures q.req == p.req.(headers := p.req.headers[h.name := h.value])
  {
    var p1 := p.(state := InHeaderValue, key := h.name, word := "");
    NameReached(p, h.name, h.blank);
    ValueReached(p1, h.value);
    q := p1.(state := SeenCrLf, req := p.req.(headers := p.req.headers[h.name := h.value]));
    var name := h.name + ":" + [h.blank];
    ReachesAppend(p, name, p1, h.value + CRLF, q);
    assert name + (h.value + CRLF) == PrintField(h);
  }

  lemma {:induction false} FieldsReached(p: Parse, hs: seq<Field>) returns (q: Parse)
    requires p.state.SeenCrLf? && p.word == "" && AreFields(hs)
    ensures Reaches(p, PrintFields(hs), q) && q.state == SeenCrLf && q.word == "" && q.need == p.need
    ensures q.req == p.req.(headers := AddAll(p.req.headers, PairsOf(hs)))
    decreases |hs|
  {
    q := p;
    if hs != [] {
      var p1 := FieldReached(p, hs[0]);
      q := FieldsReached(p1, hs[1..]);
      ReachesAppend(p, PrintField(hs[0]), p1, PrintFields(hs[1..]), q);
      assert PairsOf(hs)[1..] == PairsOf(hs[1..]);
    }
  }

  lemma BlankLineReached(p: Parse, hs: seq<Field>) returns (q: Parse)
    requires p.state.SeenCrLf? && p.word == "" && AreFields(hs)
    ensures Reaches(p, PrintFields(hs) + [CR], q) && q.state == SeenCrLfCr && q.need == p.need
    ensures q.req == p.req.(headers := AddAll(p.req.headers, PairsOf(hs)))
  {
    var p1 := FieldsReached(p, hs);
    ReachesThen(p, PrintFields(hs), p1, CR);
    q := Step(p1, CR, true);
  }

  /** The printed head is a head, and what it leaves is the request without its body. */
  lemma HeadParses(m: Message) returns (q: Parse)
    requires IsGrammatical(m)
    ensures IsHead(INIT, PrintHead(m)) && AtEnd(INIT, PrintHead(m)) == q
    ensures q.req == Meaning(m).(body := "") && q.need == TWO_64 - 1
  {
    var p1 := LineReached(m);
    q := BlankLineReached(p1, m.headers);
    var line, fields := PrintLine(m), PrintFields(m.headers);
    ReachesAppend(INIT, line, p1, fields + [CR], q);
    HeadReached(INIT, line + (fields + [CR]), q);
    HeadText(line, fields);
  }

  lemma HeadText(line: string, fields: string)
    ensures line + (fields + [CR]) + [LF] == line + fields + CRLF
  {
  }

  // ---------------------------------------------------------------- the round trip

  /** One call on the text of a request gives the request back. */
  lemma ParsingUndoesPrinting(m: Message)
    requires IsPrintable(m)
    ensures Gives(Call(INIT, Print(m)), Meaning(m), "")
  {
    var q := HeadParses(m);
    var w := PrintHead(m);
    if CONTENT_LENGTH in q.req.headers {
      MessageInOneCall(INIT, w, m.body);
      assert "" + m.body[..|m.body|] == m.body && m.body[|m.body|..] == "";
    } else {
      CallEndsHead(INIT, w, "");
      assert m.body == "";
    }
  }

  /** Any cutting of the text into calls gives the request back if and only if the call that ends the head began
      without bytes of an earlier call, or has no body bytes. */
  lemma PiecesUndoPrinting(m: Message, chunks: seq<string>)
    requires IsPrintable(m) && |Print(m)| < TWO_64 && Concat(chunks) == Print(m)
    ensures Gives(Calls(INIT, "", chunks), Meaning(m), "") <==> IsCutWell(INIT, chunks)
  {
    var q := HeadParses(m);
    AtEndKeeps(INIT, PrintHead(m));
    MessageInPieces(INIT, PrintHead(m), m.body, chunks);
    assert q.req.body + m.body == m.body;
  }

  /** So any cutting does for a request without a body, however long. */
  lemma PiecesOfHead(m: Message, chunks: seq<string>)
    requires IsPrintable(m) && m.body == "" && Concat(chunks) == Print(m)
    ensures Gives(Calls(INIT, "", chunks), Meaning(m), "")
  {
    var q := HeadParses(m);
    var w := PrintHead(m);
    TrailingHead(INIT, w, "");
    assert w + "" == w == Print(m);
    HeadInAnyPieces(INIT, chunks);
    ParsingUndoesPrinting(m);
  }

  lemma {:induction false} DigitRunAppend(s: string, c: char, v: nat)
    requires IsDigits(s) && IsDigit(c)
    ensures DigitRun(s + [c], v) == 10 * DigitRun(s, v) + (c as int - '0' as int)
    decreases |s|
  {
    if s == "" {
      assert s + [c] == [c] && [c][1..] == "";
    } else {
      assert (s + [c])[1..] == s[1..] + [c];
      DigitRunAppend(s[1..], c, 10 * v + (s[0] as int - '0' as int));
    }
  }

  /** A length in decimal digits is read as that length. */
  lemma {:induction false} AtoiReadsDigits(n: nat)
    ensures Atoi(DecimalDigits(n)) == n
  {
    DigitRunReadsDigits(n);
    DecimalDigitsValue(n);
  }

  lemma {:induction false} DigitRunReadsDigits(n: nat)
    ensures DigitRun(DecimalDigits(n), 0) == n
  {
    if n < 10 {
      assert [DigitChar(n)][1..] == "";
    } else {
      DigitRunReadsDigits(n / 10);
      DecimalDigitsValue(n / 10);
      DigitRunAppend(DecimalDigits(n / 10), DigitChar(n % 10), 0);
    }
  }
}
