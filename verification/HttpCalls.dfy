/** What the parser promises over many calls: how the bytes are cut, and what becomes of the body. */
module HttpCalls {
  import opened Basics
  import opened Words
  import opened HttpSpec

  /** Calls one after the other; what a call puts back is read again by the next. */
  function Calls(p: Parse, back: string, chunks: seq<string>): Outcome
    decreases |chunks|
  {
    if chunks == [] then Returned(p, back)
    else
      match Call(p, back + chunks[0])
      case OutOfBounds => OutOfBounds
      case Returned(p', back') => Calls(p', back', chunks[1..])
  }

  /** The bytes of `w` behind the end of the head, if the head ends in `w`. */
  function Trailing(p: Parse, w: string): (y: string)
    ensures |y| <= |w|
    decreases |w|
  {
    if w == "" || IsFinal(p.state) then ""
    else if p.state.InBody? then w
    else if Ends(p, w[0]) then w[1..]
    else Trailing(Step(p, w[0], true), w[1..])
  }

  /** Before the end of the head it does not matter whether bytes follow. */
  lemma StepIgnoresMore(p: Parse, c: char, more: bool, more': bool)
    requires !Ends(p, c)
    ensures Step(p, c, more) == Step(p, c, more')
  {
  }

  // ---------------------------------------------------------------- one call

  /** Without bytes behind the head, neither the skew nor the place does harm. */
  lemma {:induction false} HeadIgnoresSkew(p: Parse, w: string, skew: nat, place: Place)
    requires Trailing(p, w) == ""
    ensures Scan(p, w, skew, place) == Feed(p, w)
    ensures Feed(p, w).Returned? && Feed(p, w).surplus == ""
    decreases |w|
  {
    if w != "" && !IsFinal(p.state) {
      var c, rest := w[0], w[1..];
      if Ends(p, c) {
        assert rest == "" && |w| == 1;
        var q := EndHead(p, false);
        assert Scan(q, rest, skew, Ahead(place, 1)) == Feed(q, rest) == Returned(q, "");
      } else {
        StepIgnoresMore(p, c, skew + 1 < |w|, true);
        StepIgnoresMore(p, c, 1 < |w|, true);
        HeadIgnoresSkew(Step(p, c, true), rest, skew, Ahead(place, 1));
        assert Feed(p, w) == Feed(Step(p, c, 1 < |w|), rest);
      }
    }
  }

  /** With bytes behind the head, it always does. */
  lemma {:induction false} SkewMiscounts(p: Parse, w: string, skew: nat)
    requires Trailing(p, w) != "" && !p.state.InBody? && 0 < skew && |w| + skew < TWO_64
    ensures Scan(p, w, skew, Apart) != Feed(p, w)
    decreases |w|
  {
    var c, rest := w[0], w[1..];
    if Ends(p, c) {
      EndMiscounts(p, w, skew);
    } else {
      StepIgnoresMore(p, c, skew + 1 < |w|, true);
      StepIgnoresMore(p, c, 1 < |w|, true);
      var p' := Step(p, c, true);
      assert !p'.state.InBody?;
      SkewMiscounts(p', rest, skew);
      assert Feed(p, w) == Feed(Step(p, c, 1 < |w|), rest);
    }
  }

  lemma EndMiscounts(p: Parse, w: string, skew: nat)
    requires w != "" && Ends(p, w[0]) && w[1..] != "" && 0 < skew && |w| + skew < TWO_64
    ensures Scan(p, w, skew, Apart) != Feed(p, w)
  {
    var rest, more := w[1..], skew + 1 < |w|;
    var q, q' := EndHead(p, true), EndHead(p, more);
    assert Feed(p, w) == Feed(q, rest) == TakeBody(q, rest, |rest|, Apart);
    assert Scan(p, w, skew, Apart) == Scan(q', rest, skew, Apart);
    if q'.state.InBody? {
      assert q' == q;
      BodyMiscounts(q, rest, skew);
    } else {
      assert Scan(q', rest, skew, Apart) == Returned(q', "");
      TakesAll(q, rest);
    }
  }

  lemma BodyMiscounts(q: Parse, rest: string, skew: nat)
    requires q.state.InBody? && rest != "" && 0 < skew && |rest| + skew < TWO_64
    ensures Scan(q, rest, skew, Apart) != TakeBody(q, rest, |rest|, Apart)
  {
    if skew <= |rest| {
      TakesLess(q, rest, |rest| - skew);
    } else {
      assert (|rest| - skew) % TWO_64 == |rest| - skew + TWO_64;
    }
  }

  /** Bytes of the body are taken or put back. */
  lemma TakesAll(q: Parse, rest: string)
    requires rest != ""
    ensures var out := TakeBody(q, rest, |rest|, Apart);
            out.Returned? && (out.p.req.body != q.req.body || out.surplus != "")
  {
    var out := TakeBody(q, rest, |rest|, Apart);
    assert |out.p.req.body| + |out.surplus| == |q.req.body| + |rest|;
  }

  /** A smaller count of the bytes left shows. */
  lemma TakesLess(q: Parse, rest: string, left: nat)
    requires left < |rest|
    ensures TakeBody(q, rest, left, Apart) != TakeBody(q, rest, |rest|, Apart)
  {
    var out, out' := TakeBody(q, rest, left, Apart), TakeBody(q, rest, |rest|, Apart);
    assert |out.p.req.body| + |out.surplus| == |q.req.body| + left;
    assert |out'.p.req.body| + |out'.surplus| == |q.req.body| + |rest|;
  }

  // ---------------------------------------------------------------- how the head is cut

  lemma {:induction false} FeedAppend(p: Parse, x: string, y: string)
    requires Trailing(p, x + y) == ""
    ensures Trailing(p, x) == "" && Feed(p, x).Returned?
    ensures var p' := Feed(p, x).p; Trailing(p', y) == "" && Feed(p, x + y) == Feed(p', y)
    decreases |x|
  {
    HeadIgnoresSkew(p, x + y, 0, Apart);
    if x == "" {
      assert x + y == y;
    } else if !IsFinal(p.state) {
      var c := x[0];
      assert (x + y)[1..] == x[1..] + y;
      if Ends(p, c) {
        assert x[1..] + y == "" && |x| == 1 && y == "";
        assert x + y == x;
      } else {
        var p' := Step(p, c, true);
        StepIgnoresMore(p, c, 1 < |x|, true);
        StepIgnoresMore(p, c, 1 < |x + y|, true);
        FeedAppend(p', x[1..], y);
        assert Feed(p, x) == Feed(p', x[1..]);
        assert Feed(p, x + y) == Feed(p', x[1..] + y);
      }
    }
  }

  /** Every cutting of a head into calls ends as one call on the whole, as does the automaton, provided that
      nothing follows the head's end. */
  lemma {:induction false} HeadInAnyPieces(p: Parse, chunks: seq<string>)
    requires Trailing(p, Concat(chunks)) == ""
    ensures Calls(p, "", chunks) == Feed(p, Concat(chunks)) == Call(p, Concat(chunks))
    decreases |chunks|
  {
    HeadIgnoresSkew(p, Concat(chunks), Held(p), PlaceOf(p, 0));
    if chunks != [] {
      var x, y := chunks[0], Concat(chunks[1..]);
      FeedAppend(p, x, y);
      HeadIgnoresSkew(p, x, Held(p), PlaceOf(p, 0));
      assert "" + x == x;
      HeadInAnyPieces(Feed(p, x).p, chunks[1..]);
    }
  }

  // ---------------------------------------------------------------- the body

  lemma TakeTwice(p: Parse, a: string, n: nat, state: ParseState, b: string, n': nat, state': ParseState)
    ensures Take(Take(p, a, n, state), b, n', state') == Take(p, a + b, n', state')
  {
    assert (p.req.body + a) + b == p.req.body + (a + b);
  }

  /** The parser that has `b` of its body, and waits for the rest. */
  function Waiting(p: Parse, b: string): Parse
    requires |b| <= p.need
  {
    Take(p, b, p.need - |b|, InBody)
  }

  lemma WaitingTwice(p: Parse, a: string, b: string)
    requires |a| + |b| <= p.need
    ensures Waiting(Waiting(p, a), b) == Waiting(p, a + b)
  {
    TakeTwice(p, a, p.need - |a|, InBody, b, p.need - |a| - |b|, InBody);
  }

  /** A call in the body, too short. */
  lemma BodyCallWaits(p: Parse, x: string)
    requires p.state.InBody? && (|x| < p.need < TWO_64 || x == "")
    ensures Call(p, x) == Returned(Waiting(p, x), "")
  {
    assert x[..|x|] == x;
    if x == "" {
      assert p.req.body + x == p.req.body;
    }
  }

  /** A call in the body, long enough. */
  lemma BodyCallCompletes(p: Parse, x: string)
    requires p.state.InBody? && x != "" && p.need <= |x| < TWO_64
    ensures Call(p, x) == Returned(Take(p, x[..p.need], p.need, Complete), x[p.need..])
  {
    assert x[p.need..|x|] == x[p.need..];
  }

  lemma CallsCons(p: Parse, x: string, chunks: seq<string>)
    requires Call(p, x).Returned? && Call(p, x).surplus == ""
    ensures Calls(p, "", [x] + chunks) == Calls(Call(p, x).p, "", chunks)
  {
    assert "" + x == x && ([x] + chunks)[1..] == chunks;
  }

  lemma {:induction false} BodyArrives(p: Parse, chunks: seq<string>)
    requires p.state.InBody? && p.need < TWO_64
    requires |Concat(chunks)| < p.need || Concat(chunks) == ""
    ensures Calls(p, "", chunks) == Returned(Waiting(p, Concat(chunks)), "")
    decreases |chunks|
  {
    if chunks == [] {
      assert p.req.body + "" == p.req.body;
    } else {
      var x, rest := chunks[0], chunks[1..];
      assert chunks == [x] + rest;
      BodyCallWaits(p, x);
      CallsCons(p, x, rest);
      BodyArrives(Waiting(p, x), rest);
      WaitingTwice(p, x, Concat(rest));
    }
  }

  lemma {:induction false} CallsAppend(p: Parse, back: string, chunks: seq<string>, last: string)
    ensures Calls(p, back, chunks + [last]) ==
            match Calls(p, back, chunks)
            case OutOfBounds => OutOfBounds
            case Returned(p', back') => Call(p', back' + last)
    decreases |chunks|
  {
    if chunks == [] {
      assert chunks + [last] == [last] && [last][1..] == [];
    } else {
      assert (chunks + [last])[1..] == chunks[1..] + [last];
      match Call(p, back + chunks[0])
      case OutOfBounds =>
      case Returned(p', back') => CallsAppend(p', back', chunks[1..], last);
    }
  }

  /** A body of `p.need` bytes is the first so many of those that come, whatever the cutting, and the request
      is complete with the call that brings the last of them; what that call has beyond is put back. */
  lemma BodyCompletes(p: Parse, chunks: seq<string>, a: string, last: string)
    requires p.state.InBody? && p.need < TWO_64 && a == Concat(chunks) && (|a| < p.need || a == "")
    requires last != "" && |last| < TWO_64 && p.need <= |a| + |last|
    ensures Calls(p, "", chunks + [last]) ==
            Returned(Take(p, (a + last)[..p.need], p.need - |a|, Complete), (a + last)[p.need..])
  {
    BodyArrives(p, chunks);
    CallsThenLast(p, chunks, a, last);
  }

  lemma CallsThenLast(p: Parse, chunks: seq<string>, a: string, last: string)
    requires p.state.InBody? && |a| <= p.need && Calls(p, "", chunks) == Returned(Waiting(p, a), "")
    requires last != "" && p.need <= |a| + |last| && |last| < TWO_64
    ensures Calls(p, "", chunks + [last]) ==
            Returned(Take(p, (a + last)[..p.need], p.need - |a|, Complete), (a + last)[p.need..])
  {
    var n := p.need - |a|;
    CallsAppend(p, "", chunks, last);
    assert "" + last == last;
    BodyCallCompletes(Waiting(p, a), last);
    assert (a + last)[..p.need] == a + last[..n] && (a + last)[p.need..] == last[n..];
    TakeTwice(p, a, n, InBody, last[..n], n, Complete);
  }

  // ---------------------------------------------------------------- head and body

  /** The last byte of `w` ends the head. */
  predicate IsHead(p: Parse, w: string)
    decreases |w|
  {
    && w != "" && !IsFinal(p.state) && !p.state.InBody?
    && if Ends(p, w[0]) then |w| == 1 else IsHead(Step(p, w[0], true), w[1..])
  }

  /** The parser before that byte. */
  function AtEnd(p: Parse, w: string): Parse
    requires IsHead(p, w)
    decreases |w|
  {
    if Ends(p, w[0]) then p else AtEnd(Step(p, w[0], true), w[1..])
  }

  /** The head changes neither the body nor what is known of its length. */
  lemma {:induction false} AtEndKeeps(p: Parse, w: string)
    requires IsHead(p, w)
    ensures AtEnd(p, w).need == p.need && AtEnd(p, w).req.body == p.req.body
    decreases |w|
  {
    if !Ends(p, w[0]) {
      AtEndKeeps(Step(p, w[0], true), w[1..]);
    }
  }

  /** The end of the head is where the miscount of a call first shows. */
  lemma {:induction false} ScanHead(p: Parse, w: string, y: string, skew: nat, place: Place)
    requires IsHead(p, w)
    ensures Scan(p, w + y, skew, place) == Scan(EndHead(AtEnd(p, w), skew < |y|), y, skew, Ahead(place, |w|))
    decreases |w|
  {
    var c, rest := w[0], w[1..];
    assert (w + y)[1..] == rest + y;
    if Ends(p, c) {
      assert rest + y == y;
    } else {
      StepIgnoresMore(p, c, skew + 1 < |w + y|, true);
      assert Scan(p, w + y, skew, place) == Scan(Step(p, c, true), rest + y, skew, Ahead(place, 1));
      ScanHead(Step(p, c, true), rest, y, skew, Ahead(place, 1));
      assert Ahead(Ahead(place, 1), |rest|) == Ahead(place, |w|);
    }
  }

  lemma {:induction false} TrailingHead(p: Parse, w: string, y: string)
    requires IsHead(p, w)
    ensures Trailing(p, w + y) == y
    decreases |w|
  {
    assert (w + y)[1..] == w[1..] + y;
    if Ends(p, w[0]) {
      assert w[1..] + y == y;
    } else {
      TrailingHead(Step(p, w[0], true), w[1..], y);
    }
  }

  /** Of the bytes behind the head in the call that ends it, those the call counts: as many as it began with
      bytes of an earlier call are missing at the end. */
  function Counted(p: Parse, y: string): string {
    if |y| <= Held(p) then "" else y[..|y| - Held(p)]
  }

  /** Fewer bytes of body than are missing: their number wraps around. */
  predicate Wraps(p: Parse, w: string, y: string)
    requires IsHead(p, w)
  {
    0 < |y| < Held(p) && EndHead(AtEnd(p, w), false).state.InBody?
  }

  /** What a call does with bytes of the body alone, which lie in a place. */
  function BodyCall(q: Parse, y: string, place: Place): Outcome {
    if q.state.InBody? && y != "" then TakeBody(q, y, |y|, place) else Returned(q, "")
  }

  /** The call that ends the head does what it would do with the counted bytes alone behind the head. */
  lemma CallEndsHead(p: Parse, w: string, y: string)
    requires IsHead(p, w) && Held(p) < TWO_64 && |y| < TWO_64
    ensures var q, c := AtEnd(p, w), Counted(p, y);
            Call(p, w + y) ==
            if Wraps(p, w, y) then OutOfBounds else BodyCall(EndHead(q, c != ""), c, PlaceOf(p, |w|))
  {
    var c := Counted(p, y);
    CallIsScan(p, w, y);
    assert c != "" <==> Held(p) < |y|;
    ScanCounted(EndHead(AtEnd(p, w), c != ""), y, Held(p), PlaceOf(p, |w|));
  }

  lemma CallIsScan(p: Parse, w: string, y: string)
    requires IsHead(p, w)
    ensures Call(p, w + y) == Scan(EndHead(AtEnd(p, w), Held(p) < |y|), y, Held(p), PlaceOf(p, |w|))
  {
    ScanHead(p, w, y, Held(p), PlaceOf(p, 0));
  }

  lemma ScanCounted(q: Parse, y: string, skew: nat, place: Place)
    requires q.state.InBody? || q.state.Complete?
    requires skew < TWO_64 && |y| < TWO_64 && (|y| <= skew && q.state.InBody? ==> 0 < q.need)
    ensures Scan(q, y, skew, place) ==
            if 0 < |y| < skew && q.state.InBody? then OutOfBounds
            else BodyCall(q, if |y| <= skew then "" else y[..|y| - skew], place)
  {
    if q.state.InBody? && y != "" {
      var left := (|y| - skew) % TWO_64;
      assert Scan(q, y, skew, place) == TakeBody(q, y, left, place);
      Remaining(|y|, skew);
      if skew <= |y| {
        TakesCounted(q, y, left, place);
      }
    }
  }

  lemma Remaining(size: nat, skew: nat)
    requires size < TWO_64 && skew < TWO_64
    ensures var left := (size - skew) % TWO_64; if skew <= size then left == size - skew else left > size
  {
    if size < skew {
      assert (size - skew) % TWO_64 == size - skew + TWO_64;
    }
  }

  /** Bytes that are not counted do not matter. */
  lemma TakesCounted(q: Parse, y: string, left: nat, place: Place)
    requires q.state.InBody? && left <= |y| && (left == 0 ==> 0 < q.need)
    ensures TakeBody(q, y, left, place) == BodyCall(q, y[..left], place)
  {
    assert y[..left][..left] == y[..left];
    if left == 0 {
      assert q.req.body + y[..0] == q.req.body;
    } else if q.need <= left {
      assert y[..left][..q.need] == y[..q.need] && y[..left][q.need..left] == y[q.need..left];
    }
  }

  /** Where the bytes lie shows only in the body of a request that is complete with too many of them. */
  lemma PlaceShows(q: Parse, y: string, place: Place)
    requires |y| < TWO_64 && (q.state.InBody? || q.state.Complete?)
    ensures BodyCall(q, y, Apart) == Call(q, y)
    ensures !q.state.InBody? || |y| <= q.need || q.need == 0 || place.Apart? ==> BodyCall(q, y, place) == Call(q, y)
  {
    if q.state.InBody? && q.need <= |y| && (|y| == q.need || q.need == 0 || place.Apart?) {
      assert ReadBehind(y[..q.need], place, y[q.need..|y|]) == y[..q.need];
    }
  }

  /** The calls after it go on as behind the counted bytes alone, as long as no more than the body has come. */
  lemma CallsEndHead(p: Parse, w: string, y: string, chunks: seq<string>)
    requires IsHead(p, w) && Held(p) < TWO_64 && |y| < TWO_64
    requires var c := Counted(p, y);
             var q := EndHead(AtEnd(p, w), c != ""); q.state.InBody? ==> |c| <= q.need
    ensures var q, c := AtEnd(p, w), Counted(p, y);
            Calls(p, "", [w + y] + chunks) ==
            if Wraps(p, w, y) then OutOfBounds else Calls(EndHead(q, c != ""), "", [c] + chunks)
  {
    var c := Counted(p, y);
    CallEndsHead(p, w, y);
    PlaceShows(EndHead(AtEnd(p, w), c != ""), c, PlaceOf(p, |w|));
    assert "" + (w + y) == w + y && "" + c == c;
    assert ([w + y] + chunks)[1..] == chunks == ([c] + chunks)[1..];
  }

  /** The length a request gives. */
  function Length(p: Parse): int
    requires CONTENT_LENGTH in p.req.headers
  {
    Atoi(p.req.headers[CONTENT_LENGTH])
  }

  /** The request as its head leaves it, when `n` bytes of body are to come. */
  function WithLength(p: Parse, n: nat): Parse {
    p.(word := "", need := n, state := InBody)
  }

  lemma EndHeadWithLength(q: Parse, more: bool)
    requires CONTENT_LENGTH in q.req.headers && 0 <= Length(q) < TWO_64 && (more || Length(q) != 0)
    ensures EndHead(q, more) == WithLength(q, Length(q))
  {
  }

  lemma ConcatCons(x: string, chunks: seq<string>)
    ensures Concat([x] + chunks) == x + Concat(chunks)
  {
    assert ([x] + chunks)[1..] == chunks;
  }

  /** The first bytes of the body come with the end of the head, and do not complete it. */
  lemma BodyBehindHead(p: Parse, w: string, y: string, chunks: seq<string>, q0: Parse, b: string)
    requires IsHead(p, w) && Held(p) < TWO_64 && |y| < TWO_64 && !Wraps(p, w, y)
    requires q0 == EndHead(AtEnd(p, w), Counted(p, y) != "") && q0.state.InBody? && q0.need < TWO_64
    requires b == Counted(p, y) + Concat(chunks) && |b| < q0.need
    ensures Calls(p, "", [w + y] + chunks) == Returned(Waiting(q0, b), "")
  {
    var all := [Counted(p, y)] + chunks;
    CallsEndHead(p, w, y, chunks);
    assert Calls(q0, "", all) == Returned(Waiting(q0, b), "") by {
      ConcatCons(Counted(p, y), chunks);
      BodyArrives(q0, all);
    }
  }

  /** A request with a length: as long as fewer bytes of body have been counted, it waits, and has them all. */
  lemma MessageWaits(p: Parse, w: string, y: string, chunks: seq<string>)
    requires IsHead(p, w) && !Wraps(p, w, y) && Held(p) < TWO_64 && |y| < TWO_64
    requires CONTENT_LENGTH in AtEnd(p, w).req.headers
    requires |Counted(p, y) + Concat(chunks)| < Length(AtEnd(p, w)) < TWO_64
    ensures var q, b := AtEnd(p, w), Counted(p, y) + Concat(chunks);
            Calls(p, "", [w + y] + chunks) == Returned(Waiting(WithLength(q, Length(q)), b), "")
  {
    var q, c := AtEnd(p, w), Counted(p, y);
    EndHeadWithLength(q, c != "");
    BodyBehindHead(p, w, y, chunks, WithLength(q, Length(q)), c + Concat(chunks));
  }

  /** And it is complete with the call that brings the last of them: the body is what was counted first behind the
      head, and what came too much in that call is put back unchanged. */
  lemma MessageCompletes(p: Parse, w: string, y: string, chunks: seq<string>, last: string)
    requires IsHead(p, w) && !Wraps(p, w, y) && Held(p) < TWO_64 && |y| < TWO_64
    requires CONTENT_LENGTH in AtEnd(p, w).req.headers && |last| < TWO_64
    requires |Counted(p, y) + Concat(chunks)| < Length(AtEnd(p, w)) < TWO_64
    requires Length(AtEnd(p, w)) <= |Counted(p, y) + Concat(chunks) + last|
    ensures var q, b := AtEnd(p, w), Counted(p, y) + Concat(chunks) + last;
            var out := Calls(p, "", [w + y] + (chunks + [last]));
            && out.Returned? && out.p.state == Complete
            && out.p.req == q.req.(body := q.req.body + b[..Length(q)]) && out.surplus == b[Length(q)..]
  {
    var q, c := AtEnd(p, w), Counted(p, y);
    CallsEndHead(p, w, y, chunks + [last]);
    EndHeadWithLength(q, c != "");
    ConcatCons(c, chunks);
    assert [c] + (chunks + [last]) == ([c] + chunks) + [last];
    BodyCompletes(WithLength(q, Length(q)), [c] + chunks, c + Concat(chunks), last);
  }

  /** Or at once, when the call that ends the head has the whole body.  The surplus is put back before the body is
      read, and in a call that begins the request it may lie over the body. */
  lemma MessageInOneCall(p: Parse, w: string, y: string)
    requires IsHead(p, w) && !Wraps(p, w, y) && Held(p) < TWO_64 && |y| < TWO_64
    requires CONTENT_LENGTH in AtEnd(p, w).req.headers && 0 <= Length(AtEnd(p, w)) <= |Counted(p, y)|
    ensures var q, c, out := AtEnd(p, w), Counted(p, y), Call(p, w + y);
            var body, surplus := c[..Length(q)], c[Length(q)..];
            Gives(out, WithBody(q, ReadBehind(body, PlaceOf(p, |w|), surplus)), surplus)
  {
    var q, c := AtEnd(p, w), Counted(p, y);
    CallEndsHead(p, w, y);
    if c == "" {
      assert q.req.body + ReadBehind(c[..0], PlaceOf(p, |w|), c[0..]) == q.req.body;
    } else {
      EndHeadWithLength(q, true);
      assert c[Length(q)..|c|] == c[Length(q)..];
    }
  }

  predicate Gives(out: Outcome, req: Request, surplus: string) {
    out.Returned? && out.p.state == Complete && out.p.req == req && out.surplus == surplus
  }

  function WithBody(q: Parse, body: string): Request {
    q.req.(body := q.req.body + body)
  }

  // ---------------------------------------------------------------- a surplus over the body

  /** Whether the bytes of a body are the same after the surplus was written `front` bytes ahead of them. */
  predicate Survives(body: string, front: nat, surplus: string) {
    forall i :: 0 <= i < |body| && front + i < |surplus| ==> surplus[front + i] == body[i]
  }

  lemma OverlayIsBody(body: string, front: nat, surplus: string)
    ensures Overlay(body, front, surplus) == body <==> Survives(body, front, surplus)
  {
    if Survives(body, front, surplus) {
      assert Overlay(body, front, surplus) == body;
    } else {
      var i :| 0 <= i < |body| && front + i < |surplus| && surplus[front + i] != body[i];
      assert Overlay(body, front, surplus)[i] != body[i];
    }
  }

  /** All bodies survive all surpluses of given lengths if and only if there is no body, or the surplus is no longer
      than what lies in front. */
  lemma SurvivesIff(n: nat, front: nat, m: nat)
    ensures (forall body: string, surplus: string | |body| == n && |surplus| == m :: Survives(body, front, surplus))
            <==> n == 0 || m <= front
  {
    if n > 0 && m > front {
      var body, surplus := seq(n, _ => 'a'), seq(m, _ => 'b');
      assert surplus[front + 0] != body[0];
      assert !Survives(body, front, surplus);
    }
  }

  /** A call that begins a request and brings all of it, and more: the head, the meaning of the head and the surplus
      are right, and the body is if and only if it survives. */
  lemma FreshCall(p: Parse, w: string, body: string, surplus: string)
    requires p.state.Start? && IsHead(p, w) && |body + surplus| < TWO_64
    requires var q := AtEnd(p, w); CONTENT_LENGTH in q.req.headers && Length(q) == |body|
    ensures var q, out := AtEnd(p, w), Call(p, w + (body + surplus));
            && Gives(out, WithBody(q, Overlay(body, |w|, surplus)), surplus)
            && (Gives(out, WithBody(q, body), surplus) <==> Survives(body, |w|, surplus))
  {
    var q, y := AtEnd(p, w), body + surplus;
    MessageInOneCall(p, w, y);
    assert y[..|body|] == body && y[|body|..] == surplus;
    OverlayIsBody(body, |w|, surplus);
    assert WithBody(q, Overlay(body, |w|, surplus)).body[|q.req.body|..] == Overlay(body, |w|, surplus);
    assert WithBody(q, body).body[|q.req.body|..] == body;
  }

  /** So for all contents if and only if the surplus is no longer than the head, or there is no body. */
  lemma FreshCallIsRight(p: Parse, w: string, n: nat, m: nat)
    requires p.state.Start? && IsHead(p, w) && n + m < TWO_64
    requires var q := AtEnd(p, w); CONTENT_LENGTH in q.req.headers && Length(q) == n
    ensures (forall body: string, surplus: string | |body| == n && |surplus| == m ::
               Gives(Call(p, w + (body + surplus)), WithBody(AtEnd(p, w), body), surplus))
            <==> n == 0 || m <= |w|
  {
    forall body: string, surplus: string | |body| == n && |surplus| == m
      ensures Gives(Call(p, w + (body + surplus)), WithBody(AtEnd(p, w), body), surplus)
              <==> Survives(body, |w|, surplus)
    {
      FreshCall(p, w, body, surplus);
    }
    SurvivesIff(n, |w|, m);
  }

  /** Two requests with heads of one length and bodies of one length, in one read: the first gets the body of the
      second. */
  lemma PipelinedPair(p: Parse, w1: string, b1: string, w2: string, b2: string)
    requires p.state.Start? && IsHead(p, w1) && |w1| == |w2| && |b1| == |b2| && |b1 + (w2 + b2)| < TWO_64
    requires var q := AtEnd(p, w1); CONTENT_LENGTH in q.req.headers && Length(q) == |b1|
    ensures Gives(Call(p, w1 + (b1 + (w2 + b2))), WithBody(AtEnd(p, w1), b2), w2 + b2)
  {
    FreshCall(p, w1, b1, w2 + b2);
    assert Overlay(b1, |w1|, w2 + b2) == b2;
  }

  // ---------------------------------------------------------------- what a call should do

  /** What lies behind the head's end is behind a head. */
  lemma {:induction false} TrailingBehindHead(p: Parse, w: string)
    requires Trailing(p, w) != "" && !p.state.InBody?
    ensures var n := |w| - |Trailing(p, w)|; 0 < n < |w| && IsHead(p, w[..n]) && w[n..] == Trailing(p, w)
    decreases |w|
  {
    var rest := w[1..];
    if Ends(p, w[0]) {
      assert w[..1] == [w[0]];
    } else {
      TrailingBehindHead(Step(p, w[0], true), rest);
      var n := |w| - |Trailing(p, w)|;
      assert w[..n][0] == w[0] && w[..n][1..] == rest[..n - 1] && w[n..] == rest[n - 1..];
    }
  }

  /** Whether the body survives in a call that begins a request, and its surplus, if it has both. */
  predicate KeepsBody(p: Parse, w: string)
    requires p.state.Start?
  {
    var y := Trailing(p, w);
    y != "" ==>
      var n := |w| - |y|;
      IsHead(p, w[..n]) &&
      var q := EndHead(AtEnd(p, w[..n]), true);
      q.need < |y| ==> Survives(y[..q.need], n, y[q.need..])
  }

  /** A call does what it should if and only if it began without bytes of an earlier call, or holds none behind the
      end of the head, and, if it begins a request, its surplus leaves the body as it is. */
  lemma CallIsFeed(p: Parse, w: string)
    requires |w| + Held(p) < TWO_64
    ensures Call(p, w) == Feed(p, w) <==>
            (Held(p) == 0 || Trailing(p, w) == "") && (p.state.Start? ==> KeepsBody(p, w))
  {
    if Trailing(p, w) == "" {
      HeadIgnoresSkew(p, w, Held(p), PlaceOf(p, 0));
    } else if Held(p) > 0 {
      SkewMiscounts(p, w, Held(p));
    } else if p.state.Start? {
      StartIsFeed(p, w);
    }
  }

  lemma StartIsFeed(p: Parse, w: string)
    requires p.state.Start? && |w| < TWO_64 && Trailing(p, w) != ""
    ensures Call(p, w) == Feed(p, w) <==> KeepsBody(p, w)
  {
    var n := |w| - |Trailing(p, w)|;
    TrailingBehindHead(p, w);
    assert w == w[..n] + w[n..];
    StartWithHead(p, w[..n], w[n..]);
  }

  lemma StartWithHead(p: Parse, head: string, y: string)
    requires p.state.Start? && IsHead(p, head) && 0 < |y| < TWO_64
    ensures var q := EndHead(AtEnd(p, head), true);
            Call(p, head + y) == Feed(p, head + y) <==>
            (q.need < |y| ==> Survives(y[..q.need], |head|, y[q.need..]))
  {
    var q := EndHead(AtEnd(p, head), true);
    BehindHead(p, head, y, InBuffer(0));
    BehindHead(p, head, y, Apart);
    TakesAgree(q, y, |head|);
  }

  lemma BehindHead(p: Parse, head: string, y: string, place: Place)
    requires IsHead(p, head) && 0 < |y| < TWO_64
    ensures Scan(p, head + y, 0, place) == TakeBody(EndHead(AtEnd(p, head), true), y, |y|, Ahead(place, |head|))
  {
    ScanHead(p, head, y, 0, place);
  }

  lemma TakesAgree(q: Parse, y: string, front: nat)
    ensures TakeBody(q, y, |y|, InBuffer(front)) == TakeBody(q, y, |y|, Apart) <==>
            (q.need < |y| ==> Survives(y[..q.need], front, y[q.need..]))
  {
    if q.need <= |y| {
      var body, surplus := y[..q.need], y[q.need..];
      assert y[q.need..|y|] == surplus;
      OverlayIsBody(body, front, surplus);
      BodiesDiffer(q, body, Overlay(body, front, surplus));
    }
  }

  lemma BodiesDiffer(q: Parse, a: string, b: string)
    ensures Take(q, a, q.need, Complete) == Take(q, b, q.need, Complete) <==> a == b
  {
    assert (q.req.body + a)[|q.req.body|..] == a && (q.req.body + b)[|q.req.body|..] == b;
  }

  // ---------------------------------------------------------------- what is not promised

  /** A body byte in the call that brings the LF of a head cut before it is neither taken nor put back. */
  lemma BodyByteLost(p: Parse, c: char)
    requires p.state.SeenCrLfCr? && p.word == [CR] && CONTENT_LENGTH in p.req.headers && Length(p) == 1
    ensures Call(p, [LF, c]) == Returned(WithLength(p, 1), "")
    ensures Feed(p, [LF, c]).Returned? && Feed(p, [LF, c]).p.req.body == p.req.body + [c]
    ensures Feed(p, [LF, c]).p.state == Complete
  {
    var rest := [LF, c][1..];
    assert rest == [c] && rest[..1] == [c] && p.req.body + rest[..0] == p.req.body;
    assert Call(p, [LF, c]) == Scan(EndHead(p, false), rest, 1, Apart);
    assert Feed(p, [LF, c]) == Feed(EndHead(p, true), rest);
  }

  /** The parser after a head without a length. */
  function WithoutLength(q: Parse, state: ParseState): Parse {
    q.(word := "", need := TWO_64 - 1, state := state)
  }

  lemma CompleteBehindHead(p: Parse, w: string, y: string, chunks: seq<string>, q0: Parse)
    requires IsHead(p, w) && Held(p) < TWO_64 && |y| < TWO_64 && !Wraps(p, w, y)
    requires q0 == EndHead(AtEnd(p, w), Counted(p, y) != "") && q0.state.Complete?
    ensures Calls(p, "", [w + y] + chunks) == Returned(q0, "")
  {
    CallsEndHead(p, w, y, chunks);
    FinalStays(q0, "", [Counted(p, y)] + chunks);
  }

  /** A request without a length is complete if and only if the call that ends its head has at most as many
      bytes behind it as it began with bytes of an earlier call, and those bytes are dropped; otherwise it waits for
      a body of 2^64 - 1 bytes. */
  lemma NoLengthAndMoreBytes(p: Parse, w: string, y: string, chunks: seq<string>)
    requires IsHead(p, w) && CONTENT_LENGTH !in AtEnd(p, w).req.headers && Held(p) < TWO_64
    requires p.need == TWO_64 - 1 && |y + Concat(chunks)| < TWO_64 - 1
    ensures var q, b, out := AtEnd(p, w), Counted(p, y) + Concat(chunks), Calls(p, "", [w + y] + chunks);
            && out.Returned? && out.surplus == "" && (out.p.state == Complete <==> |y| <= Held(p))
            && (|y| <= Held(p) ==> out.p == WithoutLength(q, Complete))
            && (Held(p) < |y| ==> out.p == Waiting(WithoutLength(q, InBody), b))
  {
    var q, c := AtEnd(p, w), Counted(p, y);
    AtEndKeeps(p, w);
    if |y| <= Held(p) {
      CompleteBehindHead(p, w, y, chunks, WithoutLength(q, Complete));
    } else {
      BodyBehindHead(p, w, y, chunks, WithoutLength(q, InBody), c + Concat(chunks));
    }
  }

  /** So from an empty snapshot any byte behind the head keeps the request from being complete. */
  lemma NoLengthFromNothingHeld(p: Parse, w: string, y: string, chunks: seq<string>)
    requires IsHead(p, w) && Held(p) == 0 && CONTENT_LENGTH !in AtEnd(p, w).req.headers
    requires p.need == TWO_64 - 1 && |y + Concat(chunks)| < TWO_64 - 1
    ensures var out := Calls(p, "", [w + y] + chunks);
            out.Returned? && (out.p.state == Complete <==> y == "") && (y != "" ==> out.p.state == InBody)
  {
    NoLengthAndMoreBytes(p, w, y, chunks);
  }

  /** But after CR LF CR the call with LF and one more byte completes, and drops it. */
  lemma ByteBehindHeadLost(p: Parse, c: char)
    requires p.state.SeenCrLfCr? && p.word == [CR] && CONTENT_LENGTH !in p.req.headers && p.need == TWO_64 - 1
    ensures Call(p, [LF, c]) == Returned(WithoutLength(p, Complete), "")
  {
    assert [LF, c] == [LF] + [c];
    CallEndsHead(p, [LF], [c]);
  }

  lemma {:induction false} FinalStays(p: Parse, back: string, chunks: seq<string>)
    requires IsFinal(p.state)
    ensures Calls(p, back, chunks) == Returned(p, if chunks == [] then back else "")
    decreases |chunks|
  {
    if chunks != [] {
      FinalStays(p, "", chunks[1..]);
    }
  }

  /** A negative length is taken for a huge one, and not rejected: the source tests an unsigned number.  Only when
      bytes were held, and fewer come behind the head, is the call undefined. */
  lemma NegativeLengthWaits(p: Parse, w: string, y: string, chunks: seq<string>)
    requires IsHead(p, w) && Held(p) < TWO_64
    requires CONTENT_LENGTH in AtEnd(p, w).req.headers && -0x8000_0000 <= Length(AtEnd(p, w)) < 0
    requires |y + Concat(chunks)| < TWO_64 - 0x8000_0000
    ensures var out := Calls(p, "", [w + y] + chunks);
            if 0 < |y| < Held(p) then out == OutOfBounds else out.Returned? && out.p.state == InBody
  {
    var q, c := AtEnd(p, w), Counted(p, y);
    var n := Length(q) + TWO_64;
    assert Length(q) % TWO_64 == n;
    if 0 < |y| < Held(p) {
      CallsEndHead(p, w, y, chunks);
    } else {
      BodyBehindHead(p, w, y, chunks, WithLength(q, n), c + Concat(chunks));
    }
  }

  // ---------------------------------------------------------------- a message in pieces

  /** What is left of a head that was cut is a head for the parser as the first part leaves it. */
  lemma {:induction false} SplitHead(p: Parse, a: string, w: string)
    requires IsHead(p, a + w) && w != ""
    ensures Trailing(p, a) == "" && Feed(p, a).Returned? && Feed(p, a).surplus == ""
    ensures var p' := Feed(p, a).p;
            IsHead(p', w) && AtEnd(p', w) == AtEnd(p, a + w) && Held(p') <= Held(p) + |a|
    decreases |a|
  {
    if a == "" {
      assert a + w == w;
    } else {
      var c := a[0];
      assert (a + w)[0] == c && (a + w)[1..] == a[1..] + w;
      StepIgnoresMore(p, c, 1 < |a|, true);
      SplitHead(Step(p, c, true), a[1..], w);
      StepHolds(p, c);
    }
  }

  lemma StepHolds(p: Parse, c: char)
    requires !IsFinal(p.state) && !p.state.InBody? && !Ends(p, c) && !IsFinal(Step(p, c, true).state)
    ensures Held(Step(p, c, true)) <= Held(p) + 1
  {
  }

  /** Whether the call that ends the head began without bytes of an earlier call, or has none behind the head. */
  predicate IsCutWell(p: Parse, chunks: seq<string>)
    decreases |chunks|
  {
    if chunks == [] || IsFinal(p.state) || p.state.InBody? then true
    else if Trailing(p, chunks[0]) != "" then Held(p) == 0
    else Feed(p, chunks[0]).Returned? ==> IsCutWell(Feed(p, chunks[0]).p, chunks[1..])
  }

  lemma {:induction false} HeadIsCutWell(p: Parse, chunks: seq<string>)
    requires Trailing(p, Concat(chunks)) == ""
    ensures IsCutWell(p, chunks)
    decreases |chunks|
  {
    if chunks != [] {
      FeedAppend(p, chunks[0], Concat(chunks[1..]));
      HeadIsCutWell(Feed(p, chunks[0]).p, chunks[1..]);
    }
  }

  /** The length a head gives is that of the body, or there is neither. */
  predicate FitsBody(q: Parse, body: string) {
    if CONTENT_LENGTH in q.req.headers then Length(q) == |body| < TWO_64 else body == ""
  }

  /** Just the bytes that a body needs, in any pieces. */
  lemma {:induction false} BodyExact(p: Parse, chunks: seq<string>)
    requires p.state.InBody? && 0 < p.need < TWO_64 && |Concat(chunks)| == p.need
    ensures Gives(Calls(p, "", chunks), WithBody(p, Concat(chunks)), "")
    decreases |chunks|
  {
    var x, rest := chunks[0], chunks[1..];
    assert chunks == [x] + rest;
    if |x| < p.need {
      var p' := Waiting(p, x);
      BodyCallWaits(p, x);
      CallsCons(p, x, rest);
      BodyExact(p', rest);
      assert p'.req.body + Concat(rest) == p.req.body + Concat(chunks);
    } else {
      assert Concat(rest) == "" && x[..p.need] == x == Concat(chunks);
      BodyCallCompletes(p, x);
      CallsCons(p, x, rest);
      FinalStays(Take(p, x, p.need, Complete), "", rest);
    }
  }

  /** The call that ends the head and those after it: bytes of the body that are not counted never come again. */
  lemma CutAtHeadEnd(p: Parse, w: string, y: string, chunks: seq<string>)
    requires IsHead(p, w) && Held(p) + |y| < TWO_64 && FitsBody(AtEnd(p, w), y + Concat(chunks))
    ensures Gives(Calls(p, "", [w + y] + chunks), WithBody(AtEnd(p, w), y + Concat(chunks)), "")
            <==> Held(p) == 0 || y == ""
  {
    var q, c, body := AtEnd(p, w), Counted(p, y), y + Concat(chunks);
    if body == "" {
      CompleteBehindHead(p, w, y, chunks, EndHead(q, false));
      assert q.req.body + body == q.req.body;
    } else if Wraps(p, w, y) {
      CallsEndHead(p, w, y, chunks);
    } else {
      EndHeadWithLength(q, c != "");
      if c == y {
        WholeBodyBehindHead(p, w, y, chunks, WithLength(q, |body|));
      } else {
        BodyBehindHead(p, w, y, chunks, WithLength(q, |body|), c + Concat(chunks));
      }
    }
  }

  lemma WholeBodyBehindHead(p: Parse, w: string, y: string, chunks: seq<string>, q0: Parse)
    requires IsHead(p, w) && Held(p) < TWO_64 && |y| < TWO_64 && !Wraps(p, w, y) && Counted(p, y) == y
    requires q0 == EndHead(AtEnd(p, w), y != "") && q0.state.InBody? && 0 < q0.need < TWO_64
    requires |y + Concat(chunks)| == q0.need
    ensures Gives(Calls(p, "", [w + y] + chunks), WithBody(q0, y + Concat(chunks)), "")
  {
    CallsEndHead(p, w, y, chunks);
    ConcatCons(y, chunks);
    BodyExact(q0, [y] + chunks);
  }

  /** A message in any pieces is parsed right if and only if it is cut well. */
  lemma {:induction false} MessageInPieces(p: Parse, head: string, body: string, chunks: seq<string>)
    requires IsHead(p, head) && FitsBody(AtEnd(p, head), body) && Concat(chunks) == head + body
    requires Held(p) + |head + body| < TWO_64
    ensures Gives(Calls(p, "", chunks), WithBody(AtEnd(p, head), body), "") <==> IsCutWell(p, chunks)
    decreases |chunks|
  {
    var x, rest := chunks[0], chunks[1..];
    assert chunks == [x] + rest;
    if |x| < |head| {
      var head' := head[|x|..];
      CutBefore(head, body, x, Concat(rest));
      SplitHead(p, x, head');
      HeadIgnoresSkew(p, x, Held(p), PlaceOf(p, 0));
      CallsCons(p, x, rest);
      MessageInPieces(Feed(p, x).p, head', body, rest);
    } else {
      var y := x[|head|..];
      CutBehind(head, body, x, Concat(rest));
      CutAtHeadEnd(p, head, y, rest);
      TrailingHead(p, head, y);
      if y == "" {
        assert x == head;
        ScanHead(p, head, y, 0, Apart);
      }
    }
  }

  lemma CutBefore(head: string, body: string, x: string, rest: string)
    requires x + rest == head + body && |x| < |head|
    ensures head == x + head[|x|..] && rest == head[|x|..] + body
  {
    assert (head + body)[..|x|] == head[..|x|] == x && (head + body)[|x|..] == head[|x|..] + body;
    assert (x + rest)[|x|..] == rest;
  }

  lemma CutBehind(head: string, body: string, x: string, rest: string)
    requires x + rest == head + body && |head| <= |x|
    ensures x == head + x[|head|..] && body == x[|head|..] + rest
  {
    assert (x + rest)[..|head|] == x[..|head|] == head && (x + rest)[|head|..] == x[|head|..] + rest;
    assert (head + body)[|head|..] == body;
  }
}
