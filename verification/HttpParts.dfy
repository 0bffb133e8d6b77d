/** What a parsed request says, in terms of the text alone: names, characters, numbers and the parts of the text. */
module HttpParts {
  import opened Basics
  import opened Words
  import opened HttpSpec
  import opened HttpCalls
  import opened HttpPrint
  import opened NumberText
  import opened DigitGen

  // ---------------------------------------------------------------- characters

  /** The bytes that a path or a parameter may have: letters, digits, a few marks, and what is not ASCII. */
  lemma UrlCharacters(c: char)
    ensures !IsInvalidUrlChar(c) <==>
            || c == '"' || c == '%' || '-' <= c <= '9' || 'A' <= c <= 'Z' || c == '_' || 'a' <= c <= '{'
            || c == '}' || c == '~' || c as int >= 0x80
  {
  }

  /** The bytes that the name of a header may have; a colon only as its first byte. */
  lemma HeaderCharacters(c: char)
    ensures !IsInvalidHeaderKeyChar(c) <==>
            || '!' <= c <= '+' || '-' <= c <= ':' || c == '?' || 'A' <= c <= '[' || c == ']' || c == '_'
            || 'a' <= c <= '{' || c == '}' || c == '~' || c as int >= 0x80
  {
  }

  /** The bytes of a verb and of a protocol, those that separate parts, and those that `atoi` skips, by their codes. */
  lemma WordCharacters(c: char)
    ensures IsUpper(c) <==> 65 <= c as int <= 90
    ensures IsDigit(c) <==> 48 <= c as int <= 57
    ensures IsBlank(c) <==> c as int in {9, 32}
    ensures IsSpace(c) <==> c as int in {9, 10, 11, 12, 13, 32}
  {
  }

  // ---------------------------------------------------------------- numbers

  predicate IsNumberEnd(rest: string) {
    rest == "" || !IsDigit(rest[0])
  }

  lemma {:induction false} DigitRunReads(s: string, rest: string)
    requires IsDigits(s) && IsNumberEnd(rest)
    ensures DigitRun(s + rest, 0) == DigitsValue(s)
    decreases |s|
  {
    DigitRunStops(s, rest, 0);
    DigitRunIsValue(s);
  }

  lemma {:induction false} DigitRunStops(s: string, rest: string, v: nat)
    requires IsDigits(s) && IsNumberEnd(rest)
    ensures DigitRun(s + rest, v) == DigitRun(s, v)
    decreases |s|
  {
    if s == "" {
      assert s + rest == rest;
    } else {
      assert (s + rest)[1..] == s[1..] + rest;
      DigitRunStops(s[1..], rest, 10 * v + (s[0] as int - '0' as int));
    }
  }

  lemma {:induction false} DigitRunIsValue(s: string)
    requires IsDigits(s)
    ensures DigitRun(s, 0) == DigitsValue(s)
    decreases |s|
  {
    if s != "" {
      var init, last := s[..|s| - 1], s[|s| - 1];
      assert s == init + [last];
      DigitRunIsValue(init);
      DigitRunAppend(init, last, 0);
    }
  }

  lemma {:induction false} AtoiSkips(spaces: string, s: string)
    requires forall i :: 0 <= i < |spaces| ==> IsSpace(spaces[i])
    ensures Atoi(spaces + s) == Atoi(s)
    decreases |spaces|
  {
    if spaces == "" {
      assert spaces + s == s;
    } else {
      assert (spaces + s)[1..] == spaces[1..] + s;
      AtoiSkips(spaces[1..], s);
    }
  }

  /** Spaces, a sign, digits and whatever follows: the number of the digits, with the sign; zero if there are none. */
  lemma AtoiReads(spaces: string, sign: string, s: string, rest: string)
    requires forall i :: 0 <= i < |spaces| ==> IsSpace(spaces[i])
    requires (sign == "" || sign == "+" || sign == "-") && IsDigits(s) && IsNumberEnd(rest)
    requires sign == "" && s == "" && rest != "" ==> !IsSpace(rest[0]) && rest[0] != '-' && rest[0] != '+'
    ensures Atoi(spaces + (sign + (s + rest))) == (if sign == "-" then -1 else 1) * DigitsValue(s)
  {
    AtoiSkips(spaces, sign + (s + rest));
    DigitRunReads(s, rest);
    if sign == "" {
      assert sign + (s + rest) == s + rest;
    } else {
      assert (sign + (s + rest))[0] == sign[0] && (sign + (s + rest))[1..] == s + rest;
    }
  }

  // ---------------------------------------------------------------- every part

  /** The map has the last value of every key of the list, and no other key. */
  ghost predicate HasLastValues(m: map<string, string>, ps: seq<Pair>) {
    && (forall k :: k in m ==> exists i :: 0 <= i < |ps| && ps[i].0 == k)
    && forall i :: 0 <= i < |ps| && (forall j :: i < j < |ps| ==> ps[j].0 != ps[i].0) ==>
         ps[i].0 in m && m[ps[i].0] == ps[i].1
  }

  lemma AddAllHasLastValues(ps: seq<Pair>)
    ensures HasLastValues(AddAll(map[], ps), ps)
  {
    forall k | k in AddAll(map[], ps)
      ensures exists i :: 0 <= i < |ps| && ps[i].0 == k
    {
      if forall i :: 0 <= i < |ps| ==> ps[i].0 != k {
        OthersStay(map[], ps, k);
      }
    }
    forall i | 0 <= i < |ps| && (forall j :: i < j < |ps| ==> ps[j].0 != ps[i].0)
      ensures ps[i].0 in AddAll(map[], ps) && AddAll(map[], ps)[ps[i].0] == ps[i].1
    {
      LastValueCounts(map[], ps, i);
    }
  }

  /** The request has the parts that were printed, each in its place. */
  ghost predicate HasParts(r: Request, m: Message) {
    && (if m.verb in {"GET", "HEAD", "POST", "OPTIONS"} then VerbName(r.verb) == m.verb else r.verb == NoVerb)
    && r.url == m.path && HasLastValues(r.params, m.params) && r.protocol == m.protocol
    && (if m.version in {"1.0", "1.1"} then VersionName(r.version) == "HTTP/" + m.version else r.version == NoVersion)
    && HasLastValues(r.headers, PairsOf(m.headers)) && r.body == m.body
  }

  /** A call on the text of a message gives a request with just its parts. */
  lemma EveryPartParsed(m: Message)
    requires IsPrintable(m)
    ensures var out := Call(INIT, Print(m));
            out.Returned? && out.p.state == Complete && HasParts(out.p.req, m) && out.surplus == ""
  {
    ParsingUndoesPrinting(m);
    VerbIsNamed(m.verb);
    VersionIsNamed(m.version);
    AddAllHasLastValues(m.params);
    AddAllHasLastValues(PairsOf(m.headers));
  }

  /** For example, for all paths and bodies. */
  lemma PostIsRead(path: string, body: string)
    requires IsUrlText(path) && path[0] == '/' && |body| < TWO_64
    ensures var n := DecimalDigits(|body|);
            var text := "POST " + path + " HTTP/1.1\r\nContent-Length: " + n + "\r\n\r\n" + body;
            Gives(Call(INIT, text), Request(Post, path, Http11, "HTTP", map[], map["Content-Length" := n], body), "")
  {
    PostIsPrintable(path, body);
    PostText(path, body);
    ParsingUndoesPrinting(Posted(path, body));
    PostMeans(path, body);
  }

  function Posted(path: string, body: string): Message {
    Message("", "POST", ' ', path, [], ' ', "HTTP", "1.1", [Field("Content-Length", ' ', DecimalDigits(|body|))], body)
  }

  lemma PostMeans(path: string, body: string)
    ensures Meaning(Posted(path, body)) ==
            Request(Post, path, Http11, "HTTP", map[], map["Content-Length" := DecimalDigits(|body|)], body)
  {
    VerbIsNamed("POST");
    VersionIsNamed("1.1");
    OneField("Content-Length", ' ', DecimalDigits(|body|));
  }

  lemma OneField(name: string, blank: char, value: string)
    ensures AddAll(map[], PairsOf([Field(name, blank, value)])) == map[name := value]
  {
    var h := Field(name, blank, value);
    var ps := PairsOf([h]);
    PairsOfAt([h]);
    assert ps == [(name, value)] && ps[1..] == [];
  }

  lemma PostIsPrintable(path: string, body: string)
    requires IsUrlText(path) && path[0] == '/' && |body| < TWO_64
    ensures IsPrintable(Posted(path, body))
  {
    var n := DecimalDigits(|body|);
    DecimalDigitsValue(|body|);
    LengthIsField(n);
    AtoiReadsDigits(|body|);
    OneField("Content-Length", ' ', n);
    assert IsWord("POST") && IsWord("HTTP") && IsVersion("1.1");
  }

  lemma LengthIsField(n: string)
    requires IsDigits(n)
    ensures IsField(Field("Content-Length", ' ', n))
  {
    var name := "Content-Length";
    forall i | 0 <= i < |name|
      ensures !IsInvalidHeaderKeyChar(name[i]) && name[i] != ':'
    {
      HeaderCharacters(name[i]);
    }
  }

  lemma PostText(path: string, body: string)
    ensures Print(Posted(path, body)) ==
            "POST " + path + " HTTP/1.1\r\nContent-Length: " + DecimalDigits(|body|) + "\r\n\r\n" + body
  {
    var m, n := Posted(path, body), DecimalDigits(|body|);
    PostLine(path, body);
    PostFields(n);
    LineEnds();
    Join(PrintLine(m), PrintFields(m.headers), "POST ", path, " ", "HTTP/1.1\r\n", " HTTP/1.1\r\nContent-Length: ",
         "Content-Length: ", n, "\r\n", CRLF, "\r\n\r\n", body);
  }

  lemma LineEnds()
    ensures " " + "HTTP/1.1\r\n" + "Content-Length: " == " HTTP/1.1\r\nContent-Length: "
    ensures "\r\n" + CRLF == "\r\n\r\n"
  {
  }

  lemma Join(line: string, fields: string, a: string, path: string, b: string, c: string, bcd: string, d: string,
             n: string, e: string, f: string, ef: string, body: string)
    requires line == a + (path + b) + c && fields == d + n + e && bcd == b + c + d && ef == e + f
    ensures (line + fields + f) + body == a + path + bcd + n + ef + body
  {
  }

  lemma PostLine(path: string, body: string)
    ensures PrintLine(Posted(path, body)) == "POST " + (path + " ") + "HTTP/1.1\r\n"
  {
    assert PrintBegin(Posted(path, body)) == "POST ";
    assert PrintTarget(Posted(path, body)) == path;
    assert PrintEnd(Posted(path, body)) == "HTTP/1.1\r\n";
  }

  lemma PostFields(n: string)
    ensures PrintFields([Field("Content-Length", ' ', n)]) == "Content-Length: " + n + "\r\n"
  {
    var h := Field("Content-Length", ' ', n);
    assert [h][1..] == [] && PrintField(h) + "" == PrintField(h);
    assert "Content-Length" + ":" + [' '] == "Content-Length: " && CRLF == "\r\n";
  }
}
