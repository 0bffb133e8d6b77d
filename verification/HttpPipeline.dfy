/** Requests one after the other on one connection: the server parses once for every read, takes a complete
    request, and resets the parser. */
module HttpPipeline {
  import opened Basics
  import opened Words
  import opened HttpSpec
  import opened HttpCalls
  import opened HttpPrint

  /** The requests taken, and the parser and the buffer as they are then; or a call was undefined. */
  datatype Service = Served(requests: seq<Request>, p: Parse, back: string) | Undefined

  function Then(req: Request, s: Service): Service {
    match s
    case Served(requests, p, back) => Served([req] + requests, p, back)
    case Undefined => Undefined
  }

  /** The message callback, for as many reads as there are chunks. */
  function Serve(p: Parse, back: string, chunks: seq<string>): Service
    decreases |chunks|
  {
    if chunks == [] then Served([], p, back)
    else
      match Call(p, back + chunks[0])
      case OutOfBounds => Undefined
      case Returned(p', back') =>
        if p'.state.Complete? then Then(p'.req, Serve(INIT, back', chunks[1..]))
        else Serve(p', back', chunks[1..])
  }

  function PrintAll(ms: seq<Message>): string {
    if ms == [] then "" else Print(ms[0]) + PrintAll(ms[1..])
  }

  function Meanings(ms: seq<Message>): seq<Request> {
    if ms == [] then [] else [Meaning(ms[0])] + Meanings(ms[1..])
  }

  /** The request says how long its body is. */
  predicate HasLength(m: Message) {
    CONTENT_LENGTH in Meaning(m).headers
  }

  /** Messages that can follow one another: only the last may do without a length. */
  predicate ArePipelined(ms: seq<Message>) {
    forall i :: 0 <= i < |ms| ==> IsPrintable(ms[i]) && (i < |ms| - 1 ==> HasLength(ms[i]))
  }

  // ---------------------------------------------------------------- one read

  /** The parser waits for the rest `head` of a head and for `body`, which make the request `req`. */
  predicate Awaits(p: Parse, head: string, body: string, req: Request) {
    if head == "" then p.state.InBody? && 0 < p.need == |body| < TWO_64 && req == WithBody(p, body)
    else IsHead(p, head) && FitsBody(AtEnd(p, head), body) && req == WithBody(AtEnd(p, head), body)
  }

  /** Whether bytes may follow the request. */
  predicate MayGoOn(p: Parse, head: string) {
    head != "" ==> IsHead(p, head) && CONTENT_LENGTH in AtEnd(p, head).req.headers
  }

  /** A call that does not bring all of the request. */
  lemma CallWaits(p: Parse, head: string, body: string, req: Request, w: string)
    requires Awaits(p, head, body, req) && |w| < |head + body| && |w| < TWO_64
    requires w == (head + body)[..|w|] && Call(p, w) == Feed(p, w)
    ensures var head', body' := RestOfHead(head, w), RestOfBody(head, body, w);
            var out := Call(p, w);
            && out.Returned? && out.surplus == "" && !out.p.state.Complete? && Awaits(out.p, head', body', req)
            && (MayGoOn(p, head) ==> MayGoOn(out.p, head')) && Held(out.p) <= Held(p) + |w|
  {
    if |w| < |head| {
      WaitsInHead(p, head, body, req, w);
    } else if head == "" {
      assert w == body[..|w|];
      WaitsInBody(p, body, req, w);
    } else {
      var y := w[|head|..];
      assert w == head + y && y == body[..|y|];
      WaitsBehindHead(p, head, body, req, y);
      assert body[|y|..] == RestOfBody(head, body, w);
    }
  }

  function RestOfHead(head: string, w: string): string {
    if |w| < |head| then head[|w|..] else ""
  }

  function RestOfBody(head: string, body: string, w: string): string
    requires |w| <= |head + body|
  {
    if |w| < |head| then body else body[|w| - |head|..]
  }

  lemma WaitsInHead(p: Parse, head: string, body: string, req: Request, w: string)
    requires Awaits(p, head, body, req) && |w| < |head| && w == (head + body)[..|w|]
    ensures var out := Call(p, w);
            && out.Returned? && out.surplus == "" && !out.p.state.Complete?
            && Awaits(out.p, head[|w|..], body, req) && (MayGoOn(p, head) ==> MayGoOn(out.p, head[|w|..]))
            && Held(out.p) <= Held(p) + |w|
  {
    assert head == w + head[|w|..];
    SplitHead(p, w, head[|w|..]);
    HeadIgnoresSkew(p, w, Held(p), PlaceOf(p, 0));
  }

  lemma WaitsInBody(p: Parse, body: string, req: Request, w: string)
    requires Awaits(p, "", body, req) && |w| < |body| && w == body[..|w|]
    ensures var out := Call(p, w);
            && out.Returned? && out.surplus == "" && !out.p.state.Complete? && Awaits(out.p, "", body[|w|..], req)
  {
    BodyCallWaits(p, w);
    assert body == w + body[|w|..];
    assert (p.req.body + w) + body[|w|..] == p.req.body + body;
  }

  lemma WaitsBehindHead(p: Parse, head: string, body: string, req: Request, y: string)
    requires Awaits(p, head, body, req) && head != "" && |y| < |body| && y == body[..|y|]
    requires Call(p, head + y) == Feed(p, head + y)
    ensures var out := Call(p, head + y);
            && out.Returned? && out.surplus == "" && !out.p.state.Complete? && Awaits(out.p, "", body[|y|..], req)
  {
    var q0 := WithLength(AtEnd(p, head), |body|);
    ScanHead(p, head, y, 0, Apart);
    EndHeadWithLength(AtEnd(p, head), y != "");
    assert Awaits(q0, "", body, req);
    WaitsInBody(q0, body, req, y);
    assert Call(q0, y) == Feed(q0, y);
  }

  /** A call that brings all of it, and perhaps more. */
  lemma CallTakes(p: Parse, head: string, body: string, req: Request, w: string)
    requires Awaits(p, head, body, req) && |head + body| <= |w| < TWO_64 && (|head + body| < |w| ==> MayGoOn(p, head))
    requires w[..|head + body|] == head + body && Call(p, w) == Feed(p, w)
    ensures Gives(Call(p, w), req, w[|head + body|..])
  {
    var y := w[|head|..];
    assert w == head + y by {
      assert w[..|head|] == (head + body)[..|head|] == head;
    }
    assert y[..|body|] == body && y[|body|..] == w[|head + body|..];
    if head == "" {
      BodyCallCompletes(p, y);
    } else {
      TakesBehindHead(p, head, body, req, y);
    }
  }

  lemma TakesBehindHead(p: Parse, head: string, body: string, req: Request, y: string)
    requires Awaits(p, head, body, req) && head != "" && |body| <= |y| < TWO_64 && y[..|body|] == body
    requires |body| < |y| ==> MayGoOn(p, head)
    ensures Gives(Feed(p, head + y), req, y[|body|..])
  {
    var q := AtEnd(p, head);
    ScanHead(p, head, y, 0, Apart);
    if y == "" {
      assert q.req.body + body == q.req.body;
    } else {
      EndHeadWithLength(q, true);
      BodyCallCompletes(WithLength(q, |body|), y);
    }
  }

  // ---------------------------------------------------------------- many reads

  /** Every call does what it should: what `CallIsFeed` asks of a call. */
  predicate IsServedWell(p: Parse, back: string, chunks: seq<string>)
    decreases |chunks|
  {
    chunks == [] ||
    var w := back + chunks[0];
    && (Held(p) == 0 || Trailing(p, w) == "") && (p.state.Start? ==> KeepsBody(p, w))
    && match Call(p, w)
       case OutOfBounds => true
       case Returned(p', back') => IsServedWell(if p'.state.Complete? then INIT else p', back', chunks[1..])
  }

  /** The first `k` requests have been taken, and the texts of the others are in the buffer. */
  ghost predicate IsServed(s: Service, ms: seq<Message>, k: nat) {
    k <= |ms| && s == Served(Meanings(ms[..k]), INIT, PrintAll(ms[k..]))
  }

  ghost predicate SomeServed(s: Service, ms: seq<Message>) {
    exists k: nat :: IsServed(s, ms, k)
  }

  lemma PrintedAwaits(m: Message)
    requires IsPrintable(m)
    ensures Awaits(INIT, PrintHead(m), m.body, Meaning(m))
    ensures HasLength(m) ==> MayGoOn(INIT, PrintHead(m))
  {
    var q := HeadParses(m);
    AtEndKeeps(INIT, PrintHead(m));
    assert q.req.body + m.body == m.body;
  }

  lemma NextServed(s: Service, m: Message, ms: seq<Message>)
    requires SomeServed(s, ms)
    ensures SomeServed(Then(Meaning(m), s), [m] + ms)
  {
    var k: nat :| IsServed(s, ms, k);
    var all := [m] + ms;
    assert all[..k + 1] == [m] + ms[..k] && all[k + 1..] == ms[k..];
    assert ([m] + ms[..k])[1..] == ms[..k];
    assert IsServed(Then(Meaning(m), s), all, k + 1);
  }

  /** The rest of one message, and those behind it. */
  lemma {:induction false} ServeRest(p: Parse, head: string, body: string, m: Message, ms: seq<Message>, back: string,
                                     chunks: seq<string>)
    requires Awaits(p, head, body, Meaning(m)) && (ms != [] ==> MayGoOn(p, head)) && ArePipelined(ms)
    requires back + Concat(chunks) == head + body + PrintAll(ms) && |back + Concat(chunks)| + Held(p) < TWO_64
    requires IsServedWell(p, back, chunks) && (back == "" || (p == INIT && head + body == Print(m)))
    ensures SomeServed(Serve(p, back, chunks), [m] + ms)
    decreases |chunks|, 1
  {
    if chunks == [] {
      NothingServed(p, head, body, m, ms, back);
    } else {
      ServeChunk(p, head, body, m, ms, back, chunks);
    }
  }

  lemma NothingServed(p: Parse, head: string, body: string, m: Message, ms: seq<Message>, back: string)
    requires Awaits(p, head, body, Meaning(m)) && back == head + body + PrintAll(ms)
    requires back == "" || (p == INIT && head + body == Print(m))
    ensures SomeServed(Serve(p, back, []), [m] + ms)
  {
    assert ([m] + ms)[1..] == ms && ([m] + ms)[..0] == [] && ([m] + ms)[0..] == [m] + ms;
    assert IsServed(Serve(p, back, []), [m] + ms, 0);
  }

  lemma {:induction false} ServeChunk(p: Parse, head: string, body: string, m: Message, ms: seq<Message>, back: string,
                                      chunks: seq<string>)
    requires Awaits(p, head, body, Meaning(m)) && (ms != [] ==> MayGoOn(p, head)) && ArePipelined(ms)
    requires back + Concat(chunks) == head + body + PrintAll(ms) && |back + Concat(chunks)| + Held(p) < TWO_64
    requires IsServedWell(p, back, chunks) && (back == "" || (p == INIT && head + body == Print(m)))
    requires chunks != []
    ensures SomeServed(Serve(p, back, chunks), [m] + ms)
    decreases |chunks|, 0
  {
    var w, later, text := back + chunks[0], Concat(chunks[1..]), head + body;
    JoinFirst(back, chunks);
    CallIsFeed(p, w);
    if |w| < |text| {
      CutBefore(text, PrintAll(ms), w, later);
      CallWaits(p, head, body, Meaning(m), w);
      RestText(head, body, w);
      ServeRest(Call(p, w).p, RestOfHead(head, w), RestOfBody(head, body, w), m, ms, "", chunks[1..]);
    } else {
      CutBehind(text, PrintAll(ms), w, later);
      assert w[..|text|] == text;
      CallTakes(p, head, body, Meaning(m), w);
      ServeNext(ms, w[|text|..], chunks[1..]);
      NextServed(Serve(INIT, w[|text|..], chunks[1..]), m, ms);
    }
  }

  lemma JoinFirst(back: string, chunks: seq<string>)
    requires chunks != []
    ensures back + Concat(chunks) == (back + chunks[0]) + Concat(chunks[1..])
  {
  }

  lemma RestText(head: string, body: string, w: string)
    requires |w| < |head + body|
    ensures RestOfHead(head, w) + RestOfBody(head, body, w) == (head + body)[|w|..]
  {
  }

  /** The messages behind one that was taken. */
  lemma {:induction false} ServeNext(ms: seq<Message>, back: string, chunks: seq<string>)
    requires ArePipelined(ms) && back + Concat(chunks) == PrintAll(ms) && |back + Concat(chunks)| < TWO_64
    requires IsServedWell(INIT, back, chunks)
    ensures SomeServed(Serve(INIT, back, chunks), ms)
    decreases |chunks|, 2
  {
    if ms == [] {
      ServeNothing(chunks);
      assert IsServed(Serve(INIT, back, chunks), ms, 0);
    } else {
      PrintedAwaits(ms[0]);
      assert ms == [ms[0]] + ms[1..] && PrintHead(ms[0]) + ms[0].body == Print(ms[0]);
      ServeRest(INIT, PrintHead(ms[0]), ms[0].body, ms[0], ms[1..], back, chunks);
    }
  }

  lemma {:induction false} ServeNothing(chunks: seq<string>)
    requires Concat(chunks) == ""
    ensures Serve(INIT, "", chunks) == Served([], INIT, "")
    decreases |chunks|
  {
    if chunks != [] {
      assert "" + chunks[0] == "";
      assert Call(INIT, "") == Returned(INIT, "");
      ServeNothing(chunks[1..]);
    }
  }

  /** Requests in any pieces: if every call does what it should, those taken and those still in the buffer are all
      of them, in order, and each once. */
  lemma ServedInOrder(ms: seq<Message>, chunks: seq<string>)
    requires ArePipelined(ms) && Concat(chunks) == PrintAll(ms) && |PrintAll(ms)| < TWO_64
    requires IsServedWell(INIT, "", chunks)
    ensures exists k: nat :: IsServed(Serve(INIT, "", chunks), ms, k)
  {
    ServeNext(ms, "", chunks);
  }

  // ---------------------------------------------------------------- all in one read

  /** What is taken of requests that came in one read. */
  function Taken(ms: seq<Message>): seq<Request> {
    if ms == [] then [] else [Got(ms[0], PrintAll(ms[1..]))] + Taken(ms[1..])
  }

  /** What is taken of a request with `rest` behind it. */
  function Got(m: Message, rest: string): Request {
    Meaning(m).(body := Overlay(m.body, |PrintHead(m)|, rest))
  }

  function NoBytes(n: nat): seq<string> {
    seq(n, _ => "")
  }

  /** The text of a request, and more behind it. */
  lemma PrintedThenMore(m: Message, rest: string)
    requires IsPrintable(m) && (HasLength(m) || rest == "") && |Print(m) + rest| < TWO_64
    ensures Gives(Call(INIT, Print(m) + rest), Got(m, rest), rest)
  {
    var q := HeadParses(m);
    var w := PrintHead(m);
    AtEndKeeps(INIT, w);
    assert Print(m) + rest == w + (m.body + rest);
    if HasLength(m) {
      FreshCall(INIT, w, m.body, rest);
    } else {
      ParsingUndoesPrinting(m);
      assert Print(m) + rest == Print(m) && Overlay("", |w|, rest) == "";
    }
  }

  /** Requests in one read: one is taken for every call, with its own head, and all bodies are right if and only if
      each survives what comes behind it. */
  lemma {:induction false} PipelinedInOneRead(ms: seq<Message>)
    requires ArePipelined(ms) && ms != [] && |PrintAll(ms)| < TWO_64
    ensures Serve(INIT, "", [PrintAll(ms)] + NoBytes(|ms| - 1)) == Served(Taken(ms), INIT, "")
    ensures Taken(ms) == Meanings(ms) <==> AllSurvive(ms)
  {
    FirstRead(PrintAll(ms), |ms| - 1);
    TakenOneByOne(ms);
    TakenIffSurvive(ms);
  }

  lemma FirstRead(w: string, n: nat)
    ensures Serve(INIT, "", [w] + NoBytes(n)) == Serve(INIT, w, NoBytes(n + 1))
  {
    assert "" + w == w + "" == w;
    assert ([w] + NoBytes(n))[1..] == NoBytes(n) == NoBytes(n + 1)[1..];
  }

  lemma FirstTaken(m: Message, rest: string, n: nat)
    requires IsPrintable(m) && (HasLength(m) || rest == "") && |Print(m) + rest| < TWO_64
    ensures Serve(INIT, Print(m) + rest, NoBytes(n + 1)) == Then(Got(m, rest), Serve(INIT, rest, NoBytes(n)))
  {
    var w := Print(m) + rest;
    PrintedThenMore(m, rest);
    assert w + "" == w && NoBytes(n + 1)[1..] == NoBytes(n);
  }

  lemma FirstOfThem(ms: seq<Message>)
    requires ArePipelined(ms) && ms != [] && |PrintAll(ms)| < TWO_64
    ensures Serve(INIT, PrintAll(ms), NoBytes(|ms|)) ==
            Then(Got(ms[0], PrintAll(ms[1..])), Serve(INIT, PrintAll(ms[1..]), NoBytes(|ms| - 1)))
  {
    var rest := PrintAll(ms[1..]);
    MayFollow(ms);
    FirstTaken(ms[0], rest, |ms| - 1);
    assert PrintAll(ms) == Print(ms[0]) + rest;
  }

  lemma MayFollow(ms: seq<Message>)
    requires ArePipelined(ms) && ms != []
    ensures IsPrintable(ms[0]) && (HasLength(ms[0]) || PrintAll(ms[1..]) == "")
  {
  }

  /** All of them are taken, one for every call. */
  predicate AreTaken(ms: seq<Message>) {
    Serve(INIT, PrintAll(ms), NoBytes(|ms|)) == Served(Taken(ms), INIT, "")
  }

  lemma OneMoreTaken(ms: seq<Message>)
    requires ArePipelined(ms) && ms != [] && |PrintAll(ms)| < TWO_64 && AreTaken(ms[1..])
    ensures AreTaken(ms)
  {
    FirstOfThem(ms);
    assert |ms[1..]| == |ms| - 1;
  }

  lemma {:induction false} TakenOneByOne(ms: seq<Message>)
    requires ArePipelined(ms) && |PrintAll(ms)| < TWO_64
    ensures AreTaken(ms)
    decreases |ms|
  {
    if ms != [] {
      TakenOneByOne(ms[1..]);
      OneMoreTaken(ms);
    }
  }

  predicate AllSurvive(ms: seq<Message>) {
    forall i :: 0 <= i < |ms| ==> Survives(ms[i].body, |PrintHead(ms[i])|, PrintAll(ms[i + 1..]))
  }

  lemma SurviveCons(ms: seq<Message>)
    requires ms != []
    ensures AllSurvive(ms) <==>
            Survives(ms[0].body, |PrintHead(ms[0])|, PrintAll(ms[1..])) && AllSurvive(ms[1..])
  {
    var rest := ms[1..];
    forall i | 0 < i < |ms|
      ensures ms[i] == rest[i - 1] && ms[i + 1..] == rest[i..]
    {
    }
    if AllSurvive(ms) {
      forall i | 0 <= i < |rest|
        ensures Survives(rest[i].body, |PrintHead(rest[i])|, PrintAll(rest[i + 1..]))
      {
        assert rest[i] == ms[i + 1] && rest[i + 1..] == ms[i + 2..];
      }
    }
  }

  lemma {:induction false} TakenIffSurvive(ms: seq<Message>)
    ensures |Taken(ms)| == |Meanings(ms)| == |ms|
    ensures Taken(ms) == Meanings(ms) <==> AllSurvive(ms)
    decreases |ms|
  {
    if ms != [] {
      var m, rest := ms[0], ms[1..];
      TakenIffSurvive(rest);
      SurviveCons(ms);
      OverlayIsBody(m.body, |PrintHead(m)|, PrintAll(rest));
      assert Taken(ms)[0].body == Overlay(m.body, |PrintHead(m)|, PrintAll(rest));
      assert Taken(ms)[1..] == Taken(rest) && Meanings(ms)[1..] == Meanings(rest);
    }
  }
}
