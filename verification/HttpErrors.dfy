/** When the parser reports an error, and which: at the first byte with which no request can begin. */
module HttpErrors {
  import opened HttpSpec
  import opened HttpCalls

  /** In a head that is neither finished nor refused. */
  predicate IsReading(p: Parse) {
    !IsFinal(p.state) && !p.state.InBody? && !p.state.InHeader?
  }

  predicate IsError(s: ParseState) {
    IsFinal(s) && s != Complete
  }

  /** The error of each part of a head. */
  function ErrorOf(s: ParseState): ParseState {
    match s
    case Start | InMethod => InvalidMethod
    case BeforeUrl | InUrl | BeforeParamKey | InParamKey | BeforeParamValue | InParamValue => InvalidUrl
    case BeforeProtocol | InProtocol | BeforeVersion | InVersion => InvalidProtocol
    case SeenCr | SeenCrLfCr => InvalidCrlf
    case SeenCrLf | InHeaderKey | BeforeHeaderValue | InHeaderValue => InvalidHeader
    case _ => Invalid
  }

  /** The length of the shortest completion. */
  function Rank(s: ParseState): nat {
    match s
    case Start => 11
    case InMethod => 10
    case BeforeUrl => 9
    case InUrl => 8
    case BeforeParamKey => 11
    case InParamKey => 10
    case BeforeParamValue => 9
    case InParamValue => 8
    case BeforeProtocol => 7
    case InProtocol => 6
    case BeforeVersion => 5
    case InVersion => 4
    case SeenCr => 3
    case SeenCrLf => 2
    case SeenCrLfCr => 1
    case InHeaderKey => 6
    case BeforeHeaderValue => 5
    case InHeaderValue => 4
    case _ => 0
  }

  /** A byte that leads on. */
  function NextByte(s: ParseState): char {
    match s
    case Start => 'A'
    case InMethod | InUrl | InParamValue | BeforeHeaderValue => ' '
    case BeforeUrl | InProtocol => '/'
    case BeforeParamKey | BeforeParamValue => 'x'
    case InParamKey => '='
    case BeforeProtocol => 'A'
    case BeforeVersion => '1'
    case InHeaderKey => ':'
    case InVersion | SeenCrLf | InHeaderValue => CR
    case _ => LF
  }

  /** From anywhere in a head there is a way to its end. */
  lemma {:induction false} CanComplete(p: Parse) returns (y: string)
    requires IsReading(p)
    ensures IsHead(p, y) && |y| == Rank(p.state)
    decreases Rank(p.state)
  {
    var c := NextByte(p.state);
    if Ends(p, c) {
      y := [c];
    } else {
      var rest := CanComplete(Step(p, c, true));
      y := [c] + rest;
      assert y[1..] == rest;
    }
  }

  /** And none is shorter. */
  lemma {:induction false} NoShorterCompletion(p: Parse, y: string)
    requires IsReading(p) && IsHead(p, y)
    ensures |y| >= Rank(p.state)
    decreases |y|
  {
    if !Ends(p, y[0]) {
      var q := Step(p, y[0], true);
      StepReads(p, y[0]);
      assert Rank(q.state) + 1 >= Rank(p.state);
      NoShorterCompletion(q, y[1..]);
    }
  }

  /** The parser meets a byte that it refuses. */
  predicate Refuses(p: Parse, w: string)
    decreases |w|
  {
    && w != "" && !Ends(p, w[0])
    && (IsFinal(Step(p, w[0], true).state) || Refuses(Step(p, w[0], true), w[1..]))
  }

  /** `w` contains the whole of a head. */
  ghost predicate HasHead(p: Parse, w: string) {
    exists k :: 0 <= k <= |w| && IsHead(p, w[..k])
  }

  /** `w` is the beginning of a head. */
  ghost predicate BeginsHead(p: Parse, w: string) {
    exists y :: IsHead(p, w + y)
  }

  lemma {:induction false} RefusedIsNoHead(p: Parse, w: string, y: string)
    requires IsReading(p) && Refuses(p, w)
    ensures !IsHead(p, w + y)
    decreases |w|
  {
    var q := Step(p, w[0], true);
    assert (w + y)[0] == w[0] && (w + y)[1..] == w[1..] + y;
    if !IsFinal(q.state) {
      StepReads(p, w[0]);
      RefusedIsNoHead(q, w[1..], y);
    }
  }

  lemma StepReads(p: Parse, c: char)
    requires IsReading(p) && !Ends(p, c) && !IsFinal(Step(p, c, true).state)
    ensures IsReading(Step(p, c, true))
  {
  }

  lemma {:induction false} PrefixIsNoHead(p: Parse, w: string, k: nat)
    requires IsReading(p) && Refuses(p, w) && k <= |w|
    ensures !IsHead(p, w[..k])
    decreases |w|
  {
    if k > 0 {
      var q := Step(p, w[0], true);
      assert w[..k][0] == w[0] && w[..k][1..] == w[1..][..k - 1];
      if !IsFinal(q.state) {
        StepReads(p, w[0]);
        PrefixIsNoHead(q, w[1..], k - 1);
      }
    }
  }

  lemma {:induction false} NotRefusedIsHead(p: Parse, w: string)
    requires IsReading(p) && !Refuses(p, w)
    ensures HasHead(p, w) || BeginsHead(p, w)
    decreases |w|
  {
    if w == "" {
      var y := CanComplete(p);
      assert w + y == y;
    } else if Ends(p, w[0]) {
      assert w[..1] == [w[0]];
      assert IsHead(p, w[..1]);
    } else {
      var q := Step(p, w[0], true);
      StepReads(p, w[0]);
      NotRefusedIsHead(q, w[1..]);
      if HasHead(q, w[1..]) {
        var k :| 0 <= k <= |w[1..]| && IsHead(q, w[1..][..k]);
        assert w[..k + 1][0] == w[0] && w[..k + 1][1..] == w[1..][..k];
        assert IsHead(p, w[..k + 1]);
      } else {
        var y :| IsHead(q, w[1..] + y);
        assert (w + y)[0] == w[0] && (w + y)[1..] == w[1..] + y;
        assert IsHead(p, w + y);
      }
    }
  }

  lemma {:induction false} RefusesIsError(p: Parse, w: string)
    requires IsReading(p)
    ensures Feed(p, w).Returned? && (IsError(Feed(p, w).p.state) <==> Refuses(p, w))
    decreases |w|
  {
    if w != "" && !Ends(p, w[0]) {
      var q := Step(p, w[0], true);
      StepIgnoresMore(p, w[0], 1 < |w|, true);
      assert Feed(p, w) == Feed(q, w[1..]);
      ErrorNamesPart(p, w[0]);
      if !IsFinal(q.state) {
        StepReads(p, w[0]);
        RefusesIsError(q, w[1..]);
      }
    } else if w != "" {
      EndIsNoError(p, w);
    }
  }

  lemma EndIsNoError(p: Parse, w: string)
    requires IsReading(p) && w != "" && Ends(p, w[0])
    ensures Feed(p, w).Returned? && !IsError(Feed(p, w).p.state)
  {
    var q := EndHead(p, 1 < |w|);
    assert Feed(p, w) == Feed(q, w[1..]);
  }

  /** A refused byte is reported as an error of the part it is in. */
  lemma ErrorNamesPart(p: Parse, c: char)
    requires IsReading(p) && !Ends(p, c)
    ensures IsFinal(Step(p, c, true).state) ==> Step(p, c, true).state == ErrorOf(p.state)
  {
  }

  /** The bytes of a request lead to an error if and only if they neither contain nor begin a head. */
  lemma ErrorIffNoHead(p: Parse, w: string)
    requires IsReading(p)
    ensures Feed(p, w).Returned?
    ensures IsError(Feed(p, w).p.state) <==> !HasHead(p, w) && !BeginsHead(p, w)
  {
    RefusesIsError(p, w);
    if Refuses(p, w) {
      forall k | 0 <= k <= |w|
        ensures !IsHead(p, w[..k])
      {
        PrefixIsNoHead(p, w, k);
      }
      forall y
        ensures !IsHead(p, w + y)
      {
        RefusedIsNoHead(p, w, y);
      }
    } else {
      NotRefusedIsHead(p, w);
    }
  }
}
