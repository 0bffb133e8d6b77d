/** The request parser as the source runs it: three positions move over the bytes of a call, and a snapshot
    carries an unfinished token into the next call. */
module HttpContexts {
  import opened Basics
  import opened Words
  import opened HttpSpec
  import opened Buffers

  /** How `parseRequest` ends; the second stands for undefined behaviour. */
  datatype Result = Parsed(state: ParseState) | Undefined

  class HTTPContext {
    var contentLength: nat
    var state: ParseState
    var request: Request
    var lastRequest: string     // the snapshot's bytes,
    var parseState: ParseState  // its state
    var colonOffset: int        // and where its colon is, from the first of the bytes
    ghost var word: string
    ghost var key: string

    ghost function View(): Parse
      reads this
    {
      Parse(state, request, word, key, contentLength)
    }

    /** Between a colon and the end of its pair. */
    static predicate InPair(s: ParseState) {
      s.BeforeParamValue? || s.InParamValue? || s.BeforeHeaderValue? || s.InHeaderValue?
    }

    static predicate InKey(s: ParseState) {
      s.InParamKey? || s.InHeaderKey?
    }

    /** `text` are the bytes from `start` to `cur`: the word, behind the key if there is one.  `colon` is
        counted from `start`; one left from an earlier token may be anywhere. */
    static ghost predicate Spells(p: Parse, text: string, colon: int) {
      if InPair(p.state) then
        var value := colon + if p.state.InHeaderValue? then 2 else 1;
        colon == |p.key| > 0 && value <= |text| && text[..colon] == p.key && text[value..] == p.word &&
        (p.state.BeforeHeaderValue? ==> p.word == "")
      else text == p.word && (InKey(p.state) ==> p.word != "")
    }

    static ghost predicate Holds(p: Parse, text: string, colon: int) {
      if p.state.Start? || p.state.InBody? then p.word == "" else !IsFinal(p.state) ==> Spells(p, text, colon)
    }

    ghost predicate Valid()
      reads this
    {
      && (!IsFinal(state) ==> parseState == state && Holds(View(), lastRequest, colonOffset))
      && (state.InBody? ==> lastRequest == "")
    }

    constructor ()
      ensures Valid() && View() == INIT
    {
      contentLength, state, request := TWO_64 - 1, Start, NO_REQUEST;
      lastRequest, parseState, colonOffset := "", Start, 0;
      word, key := "", "";
    }

    /** `reset` leaves the bytes of the snapshot, but not its state. */
    method Reset()
      modifies this
      ensures Valid() && View() == INIT
    {
      contentLength := TWO_64 - 1;
      state := Start;
      request := NO_REQUEST;
      parseState := Start;
      word, key := "", "";
    }

    // -------------------------------------------------------------- the cases of the switch

    method TakeParam(data: string, start: nat, colon: int, cur: nat)
      requires start <= cur <= |data| && state.InParamValue? && Holds(View(), data[start..cur], colon - start)
      modifies this`request
      ensures request == AddParam(old(View()))
    {
      assert data[start..colon] == data[start..cur][..colon - start];
      assert data[colon + 1..cur] == data[start..cur][colon - start + 1..];
      request := request.(params := request.params[data[start..colon] := data[colon + 1..cur]]);
    }

    method TakeHeader(data: string, start: nat, colon: int, cur: nat)
      requires start <= cur <= |data| && state.InHeaderValue? && Holds(View(), data[start..cur], colon - start)
      modifies this`request
      ensures request == AddHeader(old(View()))
    {
      assert data[start..colon] == data[start..cur][..colon - start];
      assert data[colon + 2..cur] == data[start..cur][colon - start + 2..];
      request := request.(headers := request.headers[data[start..colon] := data[colon + 2..cur]]);
    }

    method OnLineByte(data: string, start0: nat, cur: nat, colon0: int) returns (start: nat, colon: int)
      requires start0 <= cur < |data| && Holds(View(), data[start0..cur], colon0 - start0)
      requires !IsFinal(state) && !state.InBody? && !InLineEnd(state) && !InHeaderLine(state)
      requires !InParams(state) && !InProtocolPart(state)
      modifies this`state, this`request, this`word, this`key
      ensures View() == StepLine(old(View()), data[cur])
      ensures start <= cur + 1 && Holds(View(), data[start..cur + 1], colon - start)
    {
      start, colon := start0, colon0;
      var c := data[cur];
      assert data[start0..cur + 1] == data[start0..cur] + [c];
      match state {
        case Start =>
          if IsBlank(c) || c == CR || c == LF {
          } else if IsUpper(c) {
            state := InMethod;
            start := cur;
            word := [c];
          } else {
            state := InvalidMethod;
          }
        case InMethod =>
          if IsUpper(c) {
            word := word + [c];
          } else if IsBlank(c) {
            state := BeforeUrl;
            request := request.(verb := VerbOf(data[start..cur]));
            start := cur + 1;
            word := "";
          } else {
            state := InvalidMethod;
          }
        case BeforeUrl =>
          if c == '/' {
            state := InUrl;
            word := word + [c];
          } else {
            state := InvalidUrl;
          }
        case InUrl =>
          start := OnPathByte(data, start, cur, colon);
        case InHeader =>
          state := Invalid;
      }
    }

    method OnPathByte(data: string, start0: nat, cur: nat, colon: int) returns (start: nat)
      requires start0 <= cur < |data| && Holds(View(), data[start0..cur], colon - start0) && state.InUrl?
      modifies this`state, this`request, this`word
      ensures View() == StepLine(old(View()), data[cur])
      ensures start <= cur + 1 && Holds(View(), data[start..cur + 1], colon - start)
    {
      start := start0;
      var c := data[cur];
      assert data[start0..cur + 1] == data[start0..cur] + [c];
      if c == '?' {
        state := BeforeParamKey;
        request := request.(url := data[start..cur]);
        start := cur + 1;
        word := "";
      } else if IsBlank(c) {
        state := BeforeProtocol;
        request := request.(url := data[start..cur]);
        start := cur + 1;
        word := "";
      } else if IsInvalidUrlChar(c) {
        state := InvalidUrl;
      } else {
        word := word + [c];
      }
    }

    method OnParamByte(data: string, start0: nat, cur: nat, colon0: int) returns (start: nat, colon: int)
      requires start0 <= cur < |data| && Holds(View(), data[start0..cur], colon0 - start0)
      requires InParams(state)
      modifies this`state, this`request, this`word, this`key
      ensures View() == StepParams(old(View()), data[cur])
      ensures start <= cur + 1 && Holds(View(), data[start..cur + 1], colon - start)
    {
      start, colon := start0, colon0;
      var c := data[cur];
      assert data[start0..cur + 1] == data[start0..cur] + [c];
      match state {
        case BeforeParamKey =>
          if IsInvalidUrlChar(c) {
            state := InvalidUrl;
          } else {
            state := InParamKey;
            word := word + [c];
          }
        case InParamKey =>
          if c == '=' {
            state := BeforeParamValue;
            colon := cur;
            key, word := word, "";
          } else if IsInvalidUrlChar(c) {
            state := InvalidUrl;
          } else {
            word := word + [c];
          }
        case BeforeParamValue =>
          if IsInvalidUrlChar(c) {
            state := InvalidUrl;
          } else {
            state := InParamValue;
            word := word + [c];
          }
        case InParamValue =>
          start := OnParamValueByte(data, start, cur, colon);
      }
    }

    method OnParamValueByte(data: string, start0: nat, cur: nat, colon: int) returns (start: nat)
      requires start0 <= cur < |data| && Holds(View(), data[start0..cur], colon - start0) && state.InParamValue?
      modifies this`state, this`request, this`word
      ensures View() == StepParams(old(View()), data[cur])
      ensures start <= cur + 1 && Holds(View(), data[start..cur + 1], colon - start)
    {
      start := start0;
      var c := data[cur];
      assert data[start0..cur + 1] == data[start0..cur] + [c];
      if c == '&' {
        TakeParam(data, start, colon, cur);
        state := BeforeParamKey;
        start := cur + 1;
        word := "";
      } else if IsBlank(c) {
        TakeParam(data, start, colon, cur);
        state := BeforeProtocol;
        start := cur + 1;
        word := "";
      } else if IsInvalidUrlChar(c) {
        state := InvalidUrl;
      } else {
        word := word + [c];
      }
    }

    method OnProtocolByte(data: string, start0: nat, cur: nat, colon0: int) returns (start: nat, colon: int)
      requires start0 <= cur < |data| && Holds(View(), data[start0..cur], colon0 - start0)
      requires InProtocolPart(state)
      modifies this`state, this`request, this`word, this`key
      ensures View() == StepProtocol(old(View()), data[cur])
      ensures start <= cur + 1 && Holds(View(), data[start..cur + 1], colon - start)
    {
      start, colon := start0, colon0;
      var c := data[cur];
      assert data[start0..cur + 1] == data[start0..cur] + [c];
      match state {
        case BeforeProtocol =>
          if IsUpper(c) {
            state := InProtocol;
            start := cur;
            word := [c];
          } else {
            state := InvalidProtocol;
          }
        case InProtocol =>
          if IsUpper(c) {
            word := word + [c];
          } else if c == '/' {
            state := BeforeVersion;
            request := request.(protocol := data[start..cur]);
            start := cur + 1;
            word := "";
          } else {
            state := InvalidProtocol;
          }
        case BeforeVersion =>
          if IsDigit(c) {
            state := InVersion;
            word := word + [c];
          } else {
            state := InvalidProtocol;
          }
        case InVersion =>
          if c == CR {
            state := SeenCr;
            request := request.(version := VersionOf(data[start..cur]));
            start := cur + 1;
            word := "";
          } else if IsDigit(c) || c == '.' {
            word := word + [c];
          } else {
            state := InvalidProtocol;
          }
      }
    }

    method OnLineEndByte(data: string, start0: nat, cur: nat, colon0: int) returns (start: nat, colon: int)
      requires start0 <= cur < |data| && Holds(View(), data[start0..cur], colon0 - start0)
      requires InLineEnd(state) && !Ends(View(), data[cur])
      modifies this`state, this`request, this`word, this`key
      ensures View() == StepLineEnd(old(View()), data[cur])
      ensures start <= cur + 1 && Holds(View(), data[start..cur + 1], colon - start)
    {
      start, colon := start0, colon0;
      var c := data[cur];
      assert data[start0..cur + 1] == data[start0..cur] + [c];
      match state {
        case SeenCr =>
          if c == LF {
            state := SeenCrLf;
            start := cur + 1;
            word := "";
          } else {
            state := InvalidCrlf;
          }
        case SeenCrLf =>
          if c == CR {
            state := SeenCrLfCr;
            word := word + [c];
          } else if IsInvalidHeaderKeyChar(c) {
            state := InvalidHeader;
          } else {
            state := InHeaderKey;
            word := word + [c];
          }
        case SeenCrLfCr =>
          state := InvalidCrlf;
      }
    }

    method OnHeaderByte(data: string, start0: nat, cur: nat, colon0: int) returns (start: nat, colon: int)
      requires start0 <= cur < |data| && Holds(View(), data[start0..cur], colon0 - start0)
      requires InHeaderLine(state)
      modifies this`state, this`request, this`word, this`key
      ensures View() == StepHeader(old(View()), data[cur])
      ensures start <= cur + 1 && Holds(View(), data[start..cur + 1], colon - start)
    {
      start, colon := start0, colon0;
      var c := data[cur];
      assert data[start0..cur + 1] == data[start0..cur] + [c];
      match state {
        case InHeaderKey =>
          if c == ':' {
            state := BeforeHeaderValue;
            colon := cur;
            key, word := word, "";
          } else if IsInvalidHeaderKeyChar(c) {
            state := InvalidHeader;
          } else {
            word := word + [c];
          }
        case BeforeHeaderValue =>
          if !IsBlank(c) {
            state := InvalidHeader;
          } else {
            state := InHeaderValue;
          }
        case InHeaderValue =>
          if c == CR {
            TakeHeader(data, start, colon, cur);
            state := SeenCr;
            start := cur + 1;
            word := "";
          } else {
            word := word + [c];
          }
      }
    }

    /** The switch, but for the body and the byte that ends the head. */
    method OnInsideByte(data: string, start0: nat, cur: nat, colon0: int) returns (start: nat, colon: int)
      requires start0 <= cur < |data| && Holds(View(), data[start0..cur], colon0 - start0)
      requires !IsFinal(state) && !state.InBody? && !Ends(View(), data[cur])
      modifies this`state, this`request, this`word, this`key
      ensures View() == StepInside(old(View()), data[cur]) && !state.InBody?
      ensures start <= cur + 1 && Holds(View(), data[start..cur + 1], colon - start)
    {
      if InLineEnd(state) {
        start, colon := OnLineEndByte(data, start0, cur, colon0);
      } else if InHeaderLine(state) {
        start, colon := OnHeaderByte(data, start0, cur, colon0);
      } else {
        start, colon := OnRequestLineByte(data, start0, cur, colon0);
      }
    }

    /** Its cases for the request line. */
    method OnRequestLineByte(data: string, start0: nat, cur: nat, colon0: int) returns (start: nat, colon: int)
      requires start0 <= cur < |data| && Holds(View(), data[start0..cur], colon0 - start0)
      requires !IsFinal(state) && !state.InBody? && !InLineEnd(state) && !InHeaderLine(state)
      modifies this`state, this`request, this`word, this`key
      ensures View() == StepInside(old(View()), data[cur]) && !state.InBody?
      ensures start <= cur + 1 && Holds(View(), data[start..cur + 1], colon - start)
    {
      if InParams(state) {
        start, colon := OnParamByte(data, start0, cur, colon0);
      } else if InProtocolPart(state) {
        start, colon := OnProtocolByte(data, start0, cur, colon0);
      } else {
        start, colon := OnLineByte(data, start0, cur, colon0);
      }
    }

    /** The LF behind CR LF CR. */
    method OnHeadEnd(cur: nat, size: nat)
      modifies this`state, this`contentLength, this`word
      ensures View() == EndHead(old(View()), cur + 1 < size)
    {
      if CONTENT_LENGTH in request.headers {
        contentLength := Atoi(request.headers[CONTENT_LENGTH]) % TWO_64;
        // the source tests an unsigned number for being negative here
        if cur + 1 < size {
          state := InBody;
        } else if contentLength == 0 {
          state := Complete;
        } else {
          state := InBody;
        }
      } else {
        if cur + 1 < size {
          state := InBody;
        } else {
          state := Complete;
        }
      }
      word := "";
    }

    /** Where the bytes of a call lie, of which the first is `mem[base]` and the next one is number `cur`. */
    static ghost function Where(buffer: Buffer, mem: array<char>, base: nat, cur: nat): Place
      reads buffer
    {
      if mem == buffer.data then InBuffer(if buffer.writerIndex <= base then base + cur - buffer.writerIndex else 0)
      else Apart
    }

    /** `mem` has the bytes `data` of a call from `base` on, and if it is the buffer's own memory they lie behind the
        place where the buffer writes. */
    static ghost predicate Lies(buffer: Buffer, mem: array<char>, base: nat, data: string)
      reads buffer, mem
    {
      && base + |data| <= mem.Length && (forall k {:trigger data[k]} :: 0 <= k < |data| ==> mem[base + k] == data[k])
      && (mem == buffer.data ==> buffer.writerIndex <= base)
    }

    /** The body bytes of a call.  What is left of them goes back into the buffer, before the body is read. */
    method OnBody(buffer: Buffer, mem: array<char>, base: nat, end: nat, start: nat, size: nat, ghost data: string)
      returns (defined: bool)
      requires state.InBody? && start < |data| == end && buffer.Valid() && buffer.Contents() == ""
      requires Lies(buffer, mem, base, data) && buffer.AtFront()
      modifies this`state, this`request, this`contentLength, buffer, buffer.data
      ensures buffer.Valid() && buffer.AtFront() && (buffer.data == old(buffer.data) || fresh(buffer.data))
      ensures var out := TakeBody(old(View()), data[start..], (size - start) % TWO_64,
                                  old(Where(buffer, mem, base, start)));
              && defined == out.Returned?
              && (defined ==>
                    && View() == out.p && buffer.Contents() == out.surplus
                    && (!IsFinal(state) ==> Lies(buffer, mem, base, data)))
    {
      var left := (size - start) % TWO_64;
      if start + left > end {
        return false;
      }
      OnBodyWithin(buffer, mem, base, start, left, data);
      return true;
    }

    /** The same, when the bytes that the call counts are there. */
    method OnBodyWithin(buffer: Buffer, mem: array<char>, base: nat, start: nat, left: nat, ghost data: string)
      requires state.InBody? && start + left <= |data| && buffer.Valid() && buffer.Contents() == ""
      requires Lies(buffer, mem, base, data) && buffer.AtFront()
      modifies this`state, this`request, this`contentLength, buffer, buffer.data
      ensures buffer.Valid() && buffer.AtFront() && (buffer.data == old(buffer.data) || fresh(buffer.data))
      ensures Returned(View(), buffer.Contents()) ==
              TakeBody(old(View()), data[start..], left, old(Where(buffer, mem, base, start)))
      ensures !IsFinal(state) ==> Lies(buffer, mem, base, data)
    {
      var bodyLength := if contentLength > left then left else contentLength;
      ghost var w, place := data[start..], Where(buffer, mem, base, start);
      ghost var body, surplus := w[..bodyLength], w[bodyLength..left];
      BodyLies(buffer, mem, base, data, start, base + start, bodyLength, left);
      PartsAreTaken(View(), w, left, place);
      TakeIn(buffer, mem, base + start, base + start + bodyLength, base + start + left, body, surplus);
    }

    /** The body and the bytes behind it, where they lie. */
    lemma BodyLies(buffer: Buffer, mem: array<char>, base: nat, data: string, start: nat, at: nat, n: nat, left: nat)
      requires Lies(buffer, mem, base, data) && at == base + start && n <= left && start + left <= |data|
      ensures mem[at..at + n] == data[start..][..n] && mem[at + n..at + left] == data[start..][n..left]
    {
      forall k | 0 <= k < left
        ensures mem[at + k] == data[start..][k]
      {
        assert mem[base + (start + k)] == data[start + k];
      }
      SliceIs(mem, at, at + n, data[start..], 0, n);
      SliceIs(mem, at + n, at + left, data[start..], n, left);
      assert data[start..][0..n] == data[start..][..n];
    }

    static lemma SliceIs(mem: array<char>, lo: nat, hi: nat, w: string, a: nat, b: nat)
      requires lo <= hi <= mem.Length && a <= b <= |w| && hi - lo == b - a
      requires forall k :: a <= k < b ==> mem[lo - a + k] == w[k]
      ensures mem[lo..hi] == w[a..b]
    {
      forall k | 0 <= k < b - a
        ensures mem[lo..hi][k] == w[a..b][k]
      {
        assert mem[lo - a + (a + k)] == w[a + k];
      }
    }

    /** The three cases of the body: it lies from `at` to `mid`, and what follows it up to `hi`. */
    method TakeIn(buffer: Buffer, mem: array<char>, at: nat, mid: nat, hi: nat, ghost body: string,
                  ghost surplus: string)
      requires state.InBody? && at <= mid <= hi <= mem.Length
      requires mid - at == if contentLength > hi - at then hi - at else contentLength
      requires buffer.Valid() && buffer.Contents() == "" && buffer.AtFront()
      requires mem == buffer.data ==> buffer.writerIndex <= at
      requires body == mem[at..mid] && surplus == mem[mid..hi]
      modifies this`state, this`request, this`contentLength, buffer, buffer.data
      ensures buffer.Valid() && buffer.AtFront() && (buffer.data == old(buffer.data) || fresh(buffer.data))
      ensures View() == TakeParts(old(View()), body, surplus, hi - at, old(Where(buffer, mem, at, 0)))
      ensures buffer.Contents() == if View().state.InBody? then "" else surplus
      ensures state.InBody? ==> unchanged(buffer) && unchanged(buffer.data)
    {
      ghost var place := Where(buffer, mem, at, 0);
      var left := hi - at;
      if contentLength > left {
        contentLength := contentLength - left;
      } else if contentLength < left {
        state := Complete;
        PutBack(buffer, mem, at, mid, hi, body, surplus);
      } else {
        state := Complete;
        ReadUnchanged(body, place);
      }
      request := request.(body := request.body + mem[at..mid]);
    }

    static lemma PartsAreTaken(p: Parse, w: string, left: nat, place: Place)
      requires left <= |w|
      ensures var n := if p.need > left then left else p.need;
              TakeBody(p, w, left, place) ==
              Returned(TakeParts(p, w[..n], w[n..left], left, place), if p.need > left then "" else w[n..left])
    {
    }

    static ghost function TakeParts(p: Parse, body: string, surplus: string, left: nat, place: Place): Parse {
      if p.need > left then Take(p, body, p.need - left, InBody)
      else Take(p, ReadBehind(body, place, surplus), p.need, Complete)
    }

    static lemma ReadUnchanged(body: string, place: Place)
      ensures ReadBehind(body, place, "") == body
    {
    }

    /** The bytes from `mid` to `hi` are appended to the buffer. */
    method PutBack(buffer: Buffer, mem: array<char>, at: nat, mid: nat, hi: nat, ghost body: string,
                   ghost surplus: string)
      requires buffer.Valid() && buffer.Contents() == "" && buffer.AtFront() && at <= mid <= hi <= mem.Length
      requires mem == buffer.data ==> buffer.writerIndex <= at
      requires body == mem[at..mid] && surplus == mem[mid..hi]
      modifies buffer, buffer.data
      ensures buffer.Valid() && buffer.AtFront() && (buffer.data == old(buffer.data) || fresh(buffer.data))
      ensures buffer.Contents() == surplus
      ensures mem[at..mid] == ReadBehind(body, old(Where(buffer, mem, at, 0)), surplus)
    {
      ghost var w, was := buffer.writerIndex, mem[..];
      if mem == buffer.data {
        WrittenIsOverlay(was, w, surplus, at, mid - at);
      }
      buffer.AppendFrom(mem, mid, hi - mid);
      assert mem[at..mid] == mem[..][at..mid];
    }

    static lemma WrittenIsOverlay(bytes: string, w: nat, s: string, at: nat, n: nat)
      requires w <= at && at + n <= |bytes| && w + |s| <= |bytes|
      ensures Buffer.Written(bytes, w, s)[at..at + n] == Overlay(bytes[at..at + n], at - w, s)
    {
    }

    static predicate IsUnderWay(s: ParseState) {
      !IsFinal(s) && s != Start
    }

    static lemma HoldsLength(p: Parse, text: string, colon: int)
      requires IsUnderWay(p.state) && Holds(p, text, colon) && (p.state.InBody? ==> text == "")
      ensures |text| == Held(p)
    {
    }

    static ghost function After(rest: string, out: Outcome): Outcome {
      match out
      case OutOfBounds => OutOfBounds
      case Returned(p, surplus) => Returned(p, rest + surplus)
    }

    static lemma ScanByte(p: Parse, data: string, cur: nat, skew: nat, place: Place)
      requires cur < |data| && !IsFinal(p.state) && !p.state.InBody?
      ensures Scan(p, data[cur..], skew, place) ==
              Scan(if Ends(p, data[cur]) then EndHead(p, cur + 1 < |data| - skew) else StepInside(p, data[cur]),
                   data[cur + 1..], skew, Ahead(place, 1))
    {
      assert data[cur..][1..] == data[cur + 1..];
    }

    static lemma ScanEnd(p: Parse, w: string, skew: nat, place: Place)
      requires w == "" || IsFinal(p.state)
      ensures Scan(p, w, skew, place) == Returned(p, "")
    {
    }

    /** Where a call stands: the bytes up to `cur` are done, and what is left of it has the outcome `out`. */
    ghost predicate Stands(buffer: Buffer, data: string, start: nat, cur: nat, colon: int, skew: nat, place: Place,
                           out: Outcome)
      reads this, buffer, buffer.data
    {
      && start <= cur <= |data| && skew <= |data| && buffer.Valid() && buffer.AtFront()
      && (!IsFinal(state) ==> buffer.Contents() == "")
      && After(buffer.Contents(), Scan(View(), data[cur..], skew, place)) == out
      && Holds(View(), data[start..cur], colon - start)
      && (state.InBody? ==> start == cur || cur == |data|)
    }

    lemma AtEndOfCall(buffer: Buffer, data: string, start: nat, cur: nat, colon: int, skew: nat, place: Place,
                      out: Outcome)
      requires Stands(buffer, data, start, cur, colon, skew, place, out) && (IsFinal(state) || cur == |data|)
      ensures out == Returned(View(), buffer.Contents()) && Holds(View(), data[start..cur], colon - start)
    {
      ScanEnd(View(), data[cur..], skew, place);
    }

    lemma AtStartOfCall(buffer: Buffer, data: string, cur: nat, colon: int, place: Place)
      requires cur <= |data| && Holds(View(), data[..cur], colon) && (state.InBody? ==> cur == 0)
      requires buffer.Valid() && buffer.AtFront() && buffer.Contents() == ""
      ensures Stands(buffer, data, 0, cur, colon, cur, place, Scan(View(), data[cur..], cur, place))
    {
      assert data[0..cur] == data[..cur];
    }

    /** The switch for a byte of the head. */
    method OnByte(buffer: Buffer, data: string, start0: nat, cur: nat, colon0: int, size: nat, ghost skew: nat,
                  ghost place: Place, ghost out: Outcome)
      returns (start: nat, colon: int)
      requires Stands(buffer, data, start0, cur, colon0, skew, place, out) && cur < |data| == skew + size
      requires !IsFinal(state) && state != InBody
      modifies this`state, this`request, this`contentLength, this`word, this`key
      ensures Stands(buffer, data, start, cur + 1, colon, skew, Ahead(place, 1), out)
    {
      ScanByte(View(), data, cur, skew, place);
      if state == SeenCrLfCr && data[cur] == LF {
        OnHeadEnd(cur, size);
        start, colon := cur + 1, colon0;
      } else {
        start, colon := OnInsideByte(data, start0, cur, colon0);
      }
    }

    /** The switch for the body, which takes all that is left of the call. */
    method OnBodyBytes(buffer: Buffer, mem: array<char>, base: nat, data: string, start: nat, cur: nat, colon: int,
                       size: nat, ghost skew: nat, ghost out: Outcome)
      returns (defined: bool)
      requires Stands(buffer, data, start, cur, colon, skew, Where(buffer, mem, base, cur), out)
      requires Lies(buffer, mem, base, data) && cur < |data| == skew + size && state == InBody
      modifies this`state, this`request, this`contentLength, buffer, buffer.data
      ensures buffer.Valid() && (buffer.data == old(buffer.data) || fresh(buffer.data))
      ensures defined == out.Returned?
      ensures forall place :: defined ==> Stands(buffer, data, start, |data|, colon, skew, place, out)
      ensures defined && !IsFinal(state) ==> Lies(buffer, mem, base, data)
    {
      defined := OnBody(buffer, mem, base, |data|, start, size, data);
      if defined {
        forall place
          ensures Scan(View(), data[|data|..], skew, place) == Returned(View(), "")
        {
          ScanEnd(View(), data[|data|..], skew, place);
        }
      }
    }

    static lemma WhereNext(buffer: Buffer, mem: array<char>, base: nat, cur: nat)
      requires mem == buffer.data ==> buffer.writerIndex <= base
      ensures Ahead(Where(buffer, mem, base, cur), 1) == Where(buffer, mem, base, cur + 1)
    {
    }

    /** One round of the loop. */
    method Next(buffer: Buffer, mem: array<char>, base: nat, data: string, start0: nat, cur0: nat, colon0: int,
                size: nat, ghost skew: nat, ghost out: Outcome)
      returns (defined: bool, start: nat, cur: nat, colon: int)
      requires Stands(buffer, data, start0, cur0, colon0, skew, Where(buffer, mem, base, cur0), out)
      requires Lies(buffer, mem, base, data) && cur0 < |data| == skew + size && !IsFinal(state)
      modifies this`state, this`request, this`contentLength, this`word, this`key, buffer, buffer.data
      ensures buffer.Valid() && (buffer.data == old(buffer.data) || fresh(buffer.data))
      ensures (!defined ==> out == OutOfBounds) && cur > cur0
      ensures defined ==> Stands(buffer, data, start, cur, colon, skew, Where(buffer, mem, base, cur), out)
      ensures defined && !IsFinal(state) ==> Lies(buffer, mem, base, data)
    {
      defined, start, cur, colon := true, start0, cur0 + 1, colon0;
      if state == InBody {
        defined := OnBodyBytes(buffer, mem, base, data, start, cur0, colon, size, skew, out);
        cur := |data|;
      } else {
        WhereNext(buffer, mem, base, cur0);
        start, colon := OnByte(buffer, data, start, cur0, colon, size, skew, Where(buffer, mem, base, cur0), out);
      }
    }

    method Loop(buffer: Buffer, mem: array<char>, base: nat, data: string, start0: nat, cur0: nat, colon0: int,
                size: nat, ghost skew: nat, ghost out: Outcome)
      returns (defined: bool, start: nat, cur: nat, colon: int)
      requires Stands(buffer, data, start0, cur0, colon0, skew, Where(buffer, mem, base, cur0), out)
      requires Lies(buffer, mem, base, data) && |data| == skew + size
      modifies this`state, this`request, this`contentLength, this`word, this`key, buffer, buffer.data
      ensures buffer.Valid() && (!defined ==> out == OutOfBounds)
      ensures defined ==>
                && Stands(buffer, data, start, cur, colon, skew, Where(buffer, mem, base, cur), out)
                && (IsFinal(state) || cur == |data|)
    {
      defined, start, cur, colon := true, start0, cur0, colon0;
      while !IsFinal(state) && cur < |data|
        invariant Stands(buffer, data, start, cur, colon, skew, Where(buffer, mem, base, cur), out)
        invariant !IsFinal(state) ==> Lies(buffer, mem, base, data)
        invariant buffer.data == old(buffer.data) || fresh(buffer.data)
        decreases |data| - cur
      {
        defined, start, cur, colon := Next(buffer, mem, base, data, start, cur, colon, size, skew, out);
        if !defined {
          return;
        }
      }
    }

    /** The loop, over the bytes of this call behind those of the snapshot. */
    method Consume(buffer: Buffer, mem: array<char>, base: nat, data: string, cur0: nat, colon0: int, size: nat)
      returns (defined: bool, start: nat, cur: nat, colon: int)
      requires |data| == cur0 + size && Holds(View(), data[..cur0], colon0) && (state.InBody? ==> cur0 == 0)
      requires buffer.Valid() && buffer.AtFront() && buffer.Contents() == "" && Lies(buffer, mem, base, data)
      modifies this`state, this`request, this`contentLength, this`word, this`key, buffer, buffer.data
      ensures buffer.Valid()
      ensures var out := Scan(old(View()), data[cur0..], cur0, old(Where(buffer, mem, base, cur0)));
              && defined == out.Returned?
              && (defined ==>
                    && View() == out.p && buffer.Contents() == out.surplus && buffer.AtFront()
                    && start <= cur <= |data| && Holds(View(), data[start..cur], colon - start))
    {
      ghost var place := Where(buffer, mem, base, cur0);
      ghost var out := Scan(View(), data[cur0..], cur0, place);
      AtStartOfCall(buffer, data, cur0, colon0, place);
      defined, start, cur, colon := Loop(buffer, mem, base, data, 0, cur0, colon0, size, cur0, out);
      if defined {
        AtEndOfCall(buffer, data, start, cur, colon, cur0, Where(buffer, mem, base, cur), out);
      }
    }

    /** The snapshot of an unfinished request. */
    method Save(data: string, start: nat, cur: nat, colon: int)
      requires !IsFinal(state) && start <= cur <= |data| && Holds(View(), data[start..cur], colon - start)
      modifies this`parseState, this`lastRequest, this`colonOffset
      ensures Valid()
    {
      parseState := state;
      if state == InBody {
        lastRequest := "";
        colonOffset := 0;
      } else {
        lastRequest := data[start..cur];
        colonOffset := if colon != 0 then colon - start else 0;
      }
    }

    /** One call.  The bytes of a request that begins with it are parsed where they lie, in a buffer that counts
        them as retrieved; the others are copied behind those of the snapshot. */
    method ParseRequest(buffer: Buffer) returns (r: Result)
      requires Valid() && buffer.Valid()
      modifies this, buffer, buffer.data
      ensures buffer.Valid()
      ensures var out := CallBehind(old(View()), old(buffer.Contents()), old(buffer.readerIndex) - buffer.cheapPrepend);
              && (r == Undefined <==> out == OutOfBounds)
              && (r != Undefined ==>
                    && r == Parsed(state) && Valid() && View() == out.p
                    && buffer.AtFront() && buffer.Contents() == out.surplus)
    {
      var mem, base := buffer.data, buffer.readerIndex;
      var chunk := buffer.Peek();
      var size := buffer.ReadableBytes();
      buffer.RetrieveAll();
      if IsUnderWay(state) {
        HoldsLength(View(), lastRequest, colonOffset);
      }
      if IsUnderWay(parseState) {
        var data, cur := lastRequest + chunk, |lastRequest|;
        assert data[cur..] == chunk && data[..cur] == lastRequest;
        mem := StringArray(data);
        CallIs(View(), chunk, base - buffer.cheapPrepend, cur, Where(buffer, mem, 0, cur));
        r := Finish(buffer, mem, 0, data, cur, colonOffset, size);
      } else {
        assert chunk[0..] == chunk;
        CallIs(View(), chunk, base - buffer.cheapPrepend, 0, Where(buffer, mem, base, 0));
        r := Finish(buffer, mem, base, chunk, 0, 0, size);
      }
    }

    static lemma CallIs(p: Parse, w: string, gap: nat, skew: nat, place: Place)
      requires IsFinal(p.state) || (skew == Held(p) && place == PlaceOf(p, gap))
      ensures CallBehind(p, w, gap) == Scan(p, w, skew, place)
    {
    }

    method Finish(buffer: Buffer, mem: array<char>, base: nat, data: string, cur0: nat, colon0: int, size: nat)
      returns (r: Result)
      requires |data| == cur0 + size && Holds(View(), data[..cur0], colon0) && (state.InBody? ==> cur0 == 0)
      requires buffer.Valid() && buffer.AtFront() && buffer.Contents() == "" && Lies(buffer, mem, base, data)
      modifies this, buffer, buffer.data
      ensures buffer.Valid()
      ensures var out := Scan(old(View()), data[cur0..], cur0, old(Where(buffer, mem, base, cur0)));
              && (r == Undefined <==> out == OutOfBounds)
              && (r != Undefined ==>
                    && r == Parsed(state) && Valid() && View() == out.p
                    && buffer.AtFront() && buffer.Contents() == out.surplus)
    {
      var defined, start, cur, colon := Consume(buffer, mem, base, data, cur0, colon0, size);
      if !defined {
        return Undefined;
      }
      if !IsFinal(state) {
        Save(data, start, cur, colon);
      }
      return Parsed(state);
    }

    /** `std::string`, with memory of its own. */
    static method StringArray(s: string) returns (a: array<char>)
      ensures fresh(a) && a[..] == s
    {
      a := new char[|s|](i requires 0 <= i < |s| => s[i]);
    }
  }
}
