/** The request parser as a pure automaton: tokens are accumulated byte by byte, and there are no
    pointers.  Bytes are characters up to 255. */
module HttpSpec {
  import opened Basics
  import opened Words

  datatype ParseState =
    | Invalid | InvalidMethod | InvalidUrl | InvalidProtocol | InvalidHeader | InvalidCrlf | Complete
    | Start
    | InMethod
    | BeforeUrl | InUrl
    | BeforeParamKey | InParamKey | BeforeParamValue | InParamValue
    | BeforeProtocol | InProtocol
    | BeforeVersion | InVersion
    | InHeader  // declared in the source, but never entered
    | InHeaderKey | BeforeHeaderValue | InHeaderValue
    | SeenCr | SeenCrLf | SeenCrLfCr
    | InBody

  /** At or below `COMPLETE` in the source's order: nothing is parsed any more. */
  predicate IsFinal(state: ParseState) {
    match state
    case Invalid | InvalidMethod | InvalidUrl | InvalidProtocol | InvalidHeader | InvalidCrlf | Complete => true
    case _ => false
  }

  datatype Verb = NoVerb | Get | Head | Post | Options

  datatype Version = NoVersion | Http10 | Http11

  datatype Request = Request(verb: Verb, url: string, version: Version, protocol: string,
                             params: map<string, string>, headers: map<string, string>, body: string)

  const NO_REQUEST := Request(NoVerb, "", NoVersion, "", map[], map[], "")

  function VerbOf(s: string): Verb {
    if s == "GET" then Get
    else if s == "HEAD" then Head
    else if s == "POST" then Post
    else if s == "OPTIONS" then Options
    else NoVerb
  }

  function VersionOf(s: string): Version {
    if s == "1.1" then Http11 else if s == "1.0" then Http10 else NoVersion
  }

  /** `methodAsString`. */
  function VerbName(v: Verb): string {
    match v
    case Get => "GET"
    case Head => "HEAD"
    case Post => "POST"
    case Options => "OPTIONS"
    case NoVerb => "Invalid"
  }

  /** `versionAsString`. */
  function VersionName(v: Version): string {
    match v
    case Http11 => "HTTP/1.1"
    case Http10 => "HTTP/1.0"
    case NoVersion => "Invalid"
  }

  /** A verb is read from its name and from no other word. */
  lemma VerbIsNamed(s: string)
    ensures VerbOf(s) == Get <==> s == "GET"
    ensures VerbOf(s) == Head <==> s == "HEAD"
    ensures VerbOf(s) == Post <==> s == "POST"
    ensures VerbOf(s) == Options <==> s == "OPTIONS"
    ensures VerbOf(s) == NoVerb <==> s != "GET" && s != "HEAD" && s != "POST" && s != "OPTIONS"
    ensures forall v | v != NoVerb :: VerbOf(s) == v <==> s == VerbName(v)
  {
    NamesDiffer();
  }

  lemma NamesDiffer()
    ensures forall v: Verb, v': Verb :: VerbName(v) == VerbName(v') ==> v == v'
    ensures forall v: Version, v': Version :: VersionName(v) == VersionName(v') ==> v == v'
  {
    assert |VerbName(Get)| == 3 && |VerbName(Head)| == |VerbName(Post)| == 4;
    assert |VerbName(Options)| == |VerbName(NoVerb)| == 7;
    assert VerbName(Head)[0] != VerbName(Post)[0] && VerbName(Options)[0] != VerbName(NoVerb)[0];
    assert |VersionName(Http11)| == |VersionName(Http10)| == 8 && |VersionName(NoVersion)| == 7;
    assert VersionName(Http11)[7] != VersionName(Http10)[7];
  }

  /** So is a version from its number. */
  lemma VersionIsNamed(s: string)
    ensures VersionOf(s) == Http11 <==> s == "1.1"
    ensures VersionOf(s) == Http10 <==> s == "1.0"
    ensures VersionOf(s) == NoVersion <==> s != "1.1" && s != "1.0"
    ensures forall v | v != NoVersion :: VersionOf(s) == v <==> "HTTP/" + s == VersionName(v)
  {
    assert "1.1"[2] != "1.0"[2];
    forall v | v != NoVersion
      ensures VersionOf(s) == v <==> "HTTP/" + s == VersionName(v)
    {
      assert ("HTTP/" + s)[5..] == s;
      assert VersionName(Http11)[5..] == "1.1" && VersionName(Http10)[5..] == "1.0";
      assert "HTTP/" + "1.1" == VersionName(Http11) && "HTTP/" + "1.0" == VersionName(Http10);
    }
  }

  // ---------------------------------------------------------------- characters

  const CR := '\r'
  const LF := '\n'

  predicate IsBlank(c: char) {
    c == ' ' || c == '\t'
  }

  predicate IsUpper(c: char) {
    'A' <= c <= 'Z'
  }

  predicate IsControl(c: char) {
    c as int <= 0x1F || c as int == 0x7F
  }

  predicate IsInvalidUrlChar(c: char) {
    || IsControl(c)
    || c == ' ' || c == '!' || c == '#' || c == '$' || c == '&' || c == '(' || c == ')' || c == '*' || c == '+'
    || c == ',' || c == ':' || c == ';' || c == '<' || c == '=' || c == '>' || c == '?' || c == '@' || c == '['
    || c == '\'' || c == '\\' || c == ']' || c == '^' || c == '`' || c == '|'
  }

  predicate IsInvalidHeaderKeyChar(c: char) {
    || IsControl(c)
    || c == ' ' || c == ',' || c == ';' || c == '<' || c == '=' || c == '>' || c == '@' || c == '\\' || c == '^'
    || c == '`' || c == '|'
  }

  // ---------------------------------------------------------------- numbers

  function DigitRun(s: string, v: nat): nat {
    if s == "" || !IsDigit(s[0]) then v else DigitRun(s[1..], 10 * v + (s[0] as int - '0' as int))
  }

  predicate IsSpace(c: char) {
    c == ' ' || 9 <= c as int <= 13
  }

  /** C's `atoi`, but for overflow. */
  function Atoi(s: string): int {
    if s == "" then 0
    else if IsSpace(s[0]) then Atoi(s[1..])
    else if s[0] == '-' then 0 - DigitRun(s[1..], 0)
    else if s[0] == '+' then DigitRun(s[1..], 0)
    else DigitRun(s, 0)
  }

  const CONTENT_LENGTH := "Content-Length"

  // ---------------------------------------------------------------- the automaton

  /** `word` is the token being read, `key` the finished half of a pair, and `need` the bytes of the body
      still to come, a `size_t`. */
  datatype Parse = Parse(state: ParseState, req: Request, word: string, key: string, need: nat)

  const INIT := Parse(Start, NO_REQUEST, "", "", TWO_64 - 1)

  function Goto(p: Parse, state: ParseState): Parse {
    p.(state := state)
  }

  function Keep(p: Parse, c: char, state: ParseState): Parse {
    p.(word := p.word + [c], state := state)
  }

  function AddParam(p: Parse): Request {
    p.req.(params := p.req.params[p.key := p.word])
  }

  function AddHeader(p: Parse): Request {
    p.req.(headers := p.req.headers[p.key := p.word])
  }

  /** Whether this byte ends the head. */
  predicate Ends(p: Parse, c: char) {
    p.state.SeenCrLfCr? && c == LF
  }

  /** The end of the head; `more` says that bytes follow in the same call. */
  function EndHead(p: Parse, more: bool): Parse {
    if CONTENT_LENGTH in p.req.headers then
      var n := Atoi(p.req.headers[CONTENT_LENGTH]) % TWO_64;  // never negative
      p.(word := "", need := n, state := if !more && n == 0 then Complete else InBody)
    else p.(word := "", state := if more then InBody else Complete)
  }

  function StepLine(p: Parse, c: char): Parse {
    match p.state
    case Start =>
      if IsBlank(c) || c == CR || c == LF then p
      else if IsUpper(c) then p.(state := InMethod, word := [c])
      else Goto(p, InvalidMethod)
    case InMethod =>
      if IsUpper(c) then Keep(p, c, InMethod)
      else if IsBlank(c) then p.(state := BeforeUrl, req := p.req.(verb := VerbOf(p.word)), word := "")
      else Goto(p, InvalidMethod)
    case BeforeUrl =>
      if c == '/' then Keep(p, c, InUrl) else Goto(p, InvalidUrl)
    case InUrl =>
      if c == '?' then p.(state := BeforeParamKey, req := p.req.(url := p.word), word := "")
      else if IsBlank(c) then p.(state := BeforeProtocol, req := p.req.(url := p.word), word := "")
      else if IsInvalidUrlChar(c) then Goto(p, InvalidUrl)
      else Keep(p, c, InUrl)
    case _ => Goto(p, Invalid)
  }

  function StepParams(p: Parse, c: char): Parse {
    match p.state
    case BeforeParamKey =>
      if IsInvalidUrlChar(c) then Goto(p, InvalidUrl) else Keep(p, c, InParamKey)
    case InParamKey =>
      if c == '=' then p.(state := BeforeParamValue, key := p.word, word := "")
      else if IsInvalidUrlChar(c) then Goto(p, InvalidUrl)
      else Keep(p, c, InParamKey)
    case BeforeParamValue =>
      if IsInvalidUrlChar(c) then Goto(p, InvalidUrl) else Keep(p, c, InParamValue)
    case _ =>  // InParamValue
      if c == '&' then p.(state := BeforeParamKey, req := AddParam(p), word := "")
      else if IsBlank(c) then p.(state := BeforeProtocol, req := AddParam(p), word := "")
      else if IsInvalidUrlChar(c) then Goto(p, InvalidUrl)
      else Keep(p, c, InParamValue)
  }

  function StepProtocol(p: Parse, c: char): Parse {
    match p.state
    case BeforeProtocol =>
      if IsUpper(c) then p.(state := InProtocol, word := [c]) else Goto(p, InvalidProtocol)
    case InProtocol =>
      if IsUpper(c) then Keep(p, c, InProtocol)
      else if c == '/' then p.(state := BeforeVersion, req := p.req.(protocol := p.word), word := "")
      else Goto(p, InvalidProtocol)
    case BeforeVersion =>
      if IsDigit(c) then Keep(p, c, InVersion) else Goto(p, InvalidProtocol)
    case _ =>  // InVersion
      if c == CR then p.(state := SeenCr, req := p.req.(version := VersionOf(p.word)), word := "")
      else if IsDigit(c) || c == '.' then Keep(p, c, InVersion)
      else Goto(p, InvalidProtocol)
  }

  function StepLineEnd(p: Parse, c: char): Parse {
    match p.state
    case SeenCr =>
      if c == LF then p.(state := SeenCrLf, word := "") else Goto(p, InvalidCrlf)
    case SeenCrLf =>
      if c == CR then Keep(p, c, SeenCrLfCr)
      else if IsInvalidHeaderKeyChar(c) then Goto(p, InvalidHeader)
      else Keep(p, c, InHeaderKey)
    case _ => Goto(p, InvalidCrlf)  // after CR LF CR, anything but LF
  }

  function StepHeader(p: Parse, c: char): Parse {
    match p.state
    case InHeaderKey =>
      if c == ':' then p.(state := BeforeHeaderValue, key := p.word, word := "")
      else if IsInvalidHeaderKeyChar(c) then Goto(p, InvalidHeader)
      else Keep(p, c, InHeaderKey)
    case BeforeHeaderValue =>
      if IsBlank(c) then Goto(p, InHeaderValue) else Goto(p, InvalidHeader)
    case _ =>  // InHeaderValue
      if c == CR then p.(state := SeenCr, req := AddHeader(p), word := "") else Keep(p, c, InHeaderValue)
  }

  predicate InParams(state: ParseState) {
    match state
    case BeforeParamKey | InParamKey | BeforeParamValue | InParamValue => true
    case _ => false
  }

  predicate InProtocolPart(state: ParseState) {
    match state
    case BeforeProtocol | InProtocol | BeforeVersion | InVersion => true
    case _ => false
  }

  predicate InLineEnd(state: ParseState) {
    match state
    case SeenCr | SeenCrLf | SeenCrLfCr => true
    case _ => false
  }

  predicate InHeaderLine(state: ParseState) {
    match state
    case InHeaderKey | BeforeHeaderValue | InHeaderValue => true
    case _ => false
  }

  function StepInside(p: Parse, c: char): Parse {
    if InLineEnd(p.state) then StepLineEnd(p, c)
    else if InHeaderLine(p.state) then StepHeader(p, c)
    else if InParams(p.state) then StepParams(p, c)
    else if InProtocolPart(p.state) then StepProtocol(p, c)
    else StepLine(p, c)
  }

  /** One byte before the body. */
  function Step(p: Parse, c: char, more: bool): Parse {
    if Ends(p, c) then EndHead(p, more) else StepInside(p, c)
  }

  /** How a call ends.  What it leaves in the buffer is put back behind the body.  A call whose ranges lie
      outside the bytes it has is undefined. */
  datatype Outcome = Returned(p: Parse, surplus: string) | OutOfBounds

  function Take(p: Parse, bytes: string, need: nat, state: ParseState): Parse {
    p.(req := p.req.(body := p.req.body + bytes), need := need, state := state)
  }

  /** Where the bytes of a call lie: apart from the buffer, or still in it, the next of them `front` bytes behind
      the place where the buffer writes.  That is so for a call that begins a request. */
  datatype Place = Apart | InBuffer(front: nat)

  function Ahead(place: Place, n: nat): Place {
    match place
    case Apart => Apart
    case InBuffer(front) => InBuffer(front + n)
  }

  /** What is read of the bytes `body` after the bytes `surplus` were written. */
  function ReadBehind(body: string, place: Place, surplus: string): (r: string)
    ensures |r| == |body|
  {
    match place
    case Apart => body
    case InBuffer(front) => Overlay(body, front, surplus)
  }

  /** `body`, of which `surplus`, written `front` bytes ahead of it, may cover the beginning. */
  function Overlay(body: string, front: nat, surplus: string): (r: string)
    ensures |r| == |body|
  {
    seq(|body|, i requires 0 <= i < |body| => if front + i < |surplus| then surplus[front + i] else body[i])
  }

  /** The body bytes of a call; `left` is what the source takes for their number.  The source puts back what is too
      much before it reads the body. */
  function TakeBody(p: Parse, w: string, left: nat, place: Place): Outcome {
    if left > |w| then OutOfBounds
    else if p.need > left then Returned(Take(p, w[..left], p.need - left, InBody), "")
    else
      var body, surplus := w[..p.need], w[p.need..left];
      Returned(Take(p, ReadBehind(body, place, surplus), p.need, Complete), surplus)
  }

  /** The bytes `w` of a call that began with `skew` bytes of an earlier call: by so much the source
      underestimates the bytes that are left, in unsigned arithmetic. */
  function Scan(p: Parse, w: string, skew: nat, place: Place): Outcome
    decreases |w|
  {
    if w == "" || IsFinal(p.state) then Returned(p, "")
    else if p.state.InBody? then TakeBody(p, w, (|w| - skew) % TWO_64, place)
    else Scan(Step(p, w[0], skew + 1 < |w|), w[1..], skew, Ahead(place, 1))
  }

  /** The bytes of the token being read that a call hands to the next one. */
  function Held(p: Parse): nat {
    match p.state
    case BeforeParamValue | InParamValue | BeforeHeaderValue => |p.key| + 1 + |p.word|
    case InHeaderValue => |p.key| + 2 + |p.word|
    case Start | InBody => 0
    case _ => |p.word|
  }

  /** Where a call finds its bytes; `gap` are the bytes of the buffer already read. */
  function PlaceOf(p: Parse, gap: nat): Place {
    if p.state.Start? then InBuffer(gap) else Apart
  }

  /** One call of `parseRequest` on a buffer that holds `w` behind `gap` bytes already read. */
  function CallBehind(p: Parse, w: string, gap: nat): Outcome {
    Scan(p, w, Held(p), PlaceOf(p, gap))
  }

  /** One call on a buffer of which nothing has been read, as every call leaves it. */
  function Call(p: Parse, w: string): Outcome {
    CallBehind(p, w, 0)
  }

  /** What the call should do. */
  function Feed(p: Parse, w: string): Outcome {
    Scan(p, w, 0, Apart)
  }
}
