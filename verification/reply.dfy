/** The reply synthesiser `generateEmailContent` (index.js): it reads the
    From, To and Subject headers of the message being answered, lays out a
    fixed vacation reply with the addresses swapped and the subject prefixed
    by "Re: ", and returns that text as padding-free base64url together with
    the original sender. */
module Reply {
  import opened Wrappers
  import opened Bytes
  import Base64
  import Text
  import Utf8

  datatype Header = Header(name: string, value: string)

  /** A provider message: its arrival time (`internalDate`, milliseconds since
      the epoch) and its payload headers. */
  datatype Message = Message(internalDate: int, headers: seq<Header>)

  /** What the header scan collects; `subject` already carries the "Re: " prefix. */
  datatype Fields = Fields(from: string, to: string, subject: string)

  /** The result of `generateEmailContent`: the raw reply, encoded, and the
      address it answers. */
  datatype EmailContent = EmailContent(encodedMessage: string, from: string)

  /** Header `hs[i]` is called `name` and no later header is. */
  predicate IsLast(hs: seq<Header>, name: string, i: int) {
    0 <= i < |hs| && hs[i].name == name && forall j :: i < j < |hs| ==> hs[j].name != name
  }

  predicate Absent(hs: seq<Header>, name: string) {
    forall i :: 0 <= i < |hs| ==> hs[i].name != name
  }

  /** `v` is what the scan leaves for header `name`: `prefix` followed by the
      value of the last header of exactly that name, or the empty string when
      there is none. */
  predicate Picks(hs: seq<Header>, name: string, prefix: string, v: string) {
    && (Absent(hs, name) ==> v == "")
    && (forall i | 0 <= i < |hs| && IsLast(hs, name, i) :: v == prefix + hs[i].value)
  }

  /** `f` is what scanning `hs` must produce: the last From and To values and
      the last Subject behind "Re: ", each empty when the header is missing. */
  predicate Collects(hs: seq<Header>, f: Fields) {
    && Picks(hs, "From", "", f.from)
    && Picks(hs, "To", "", f.to)
    && Picks(hs, "Subject", "Re: ", f.subject)
  }

  /** One step of the scan: the three case-sensitive name comparisons, in source order. */
  function ScanStep(acc: Fields, h: Header): Fields {
    var a1 := if h.name == "From" then acc.(from := h.value) else acc;
    var a2 := if h.name == "To" then a1.(to := h.value) else a1;
    if h.name == "Subject" then a2.(subject := "Re: " + h.value) else a2
  }

  /** The scan over all headers, first to last, starting from empty fields. */
  function ScanHeaders(hs: seq<Header>): Fields
    decreases |hs|
  {
    if |hs| == 0 then Fields("", "", "")
    else ScanStep(ScanHeaders(hs[..|hs| - 1]), hs[|hs| - 1])
  }

  /** The scan keeps, for each header it reads, the last value of that name. */
  lemma {:induction false} ScanHeadersCollects(hs: seq<Header>)
    ensures Collects(hs, ScanHeaders(hs))
    decreases |hs|
  {
    if |hs| > 0 {
      var init, h := hs[..|hs| - 1], hs[|hs| - 1];
      var acc := ScanHeaders(init);
      ScanHeadersCollects(init);
      SplitLast(hs);
      CollectsStep(init, h, acc);
    }
  }

  lemma SplitLast(hs: seq<Header>)
    requires |hs| > 0
    ensures hs == hs[..|hs| - 1] + [hs[|hs| - 1]]
  {
  }

  /** One scan step keeps `Collects` true for one more header. */
  lemma CollectsStep(init: seq<Header>, h: Header, acc: Fields)
    requires Collects(init, acc)
    ensures Collects(init + [h], ScanStep(acc, h))
  {
    ScanStepFields(acc, h);
    PicksStep(init, h, "From", "", acc.from);
    PicksStep(init, h, "To", "", acc.to);
    PicksStep(init, h, "Subject", "Re: ", acc.subject);
  }

  lemma ScanStepFields(acc: Fields, h: Header)
    ensures ScanStep(acc, h).from == if h.name == "From" then h.value else acc.from
    ensures ScanStep(acc, h).to == if h.name == "To" then h.value else acc.to
    ensures ScanStep(acc, h).subject == if h.name == "Subject" then "Re: " + h.value else acc.subject
  {
  }

  /** One more header either replaces the picked value (same name) or keeps it. */
  lemma PicksStep(init: seq<Header>, h: Header, name: string, prefix: string, v: string)
    requires Picks(init, name, prefix, v)
    ensures Picks(init + [h], name, prefix, if h.name == name then prefix + h.value else v)
  {
    var hs := init + [h];
    assert forall j | 0 <= j < |init| :: hs[j] == init[j];
    assert hs[|init|] == h;
    if h.name == name {
      forall i | 0 <= i < |hs| && IsLast(hs, name, i)
        ensures i == |init|
      {
      }
    } else {
      assert Absent(hs, name) ==> Absent(init, name);
      forall i | 0 <= i < |hs| && IsLast(hs, name, i)
        ensures IsLast(init, name, i)
      {
      }
    }
  }

  /** A header that occurs at all has a last occurrence. */
  lemma {:induction false} LastExists(hs: seq<Header>, name: string)
    requires !Absent(hs, name)
    ensures exists i :: IsLast(hs, name, i)
    decreases |hs|
  {
    if hs[|hs| - 1].name == name {
      assert IsLast(hs, name, |hs| - 1);
    } else {
      var init := hs[..|hs| - 1];
      assert !Absent(init, name);
      LastExists(init, name);
      var i :| IsLast(init, name, i);
      assert IsLast(hs, name, i);
    }
  }

  /** `Collects` pins the fields down: the scan's result is the only one. */
  lemma CollectsUnique(hs: seq<Header>, f: Fields, g: Fields)
    requires Collects(hs, f) && Collects(hs, g)
    ensures f == g
  {
    if !Absent(hs, "From") {
      LastExists(hs, "From");
    }
    if !Absent(hs, "To") {
      LastExists(hs, "To");
    }
    if !Absent(hs, "Subject") {
      LastExists(hs, "Subject");
    }
  }

  /** The body of the reply, verbatim. */
  const VacationBody: string :=
    "Hey there,\n\nI'm on vacation and will get back to you when I return.\n\nThanks."

  /** The reply template for a given body: three header lines with From and
      To swapped, a blank line, then the body. */
  function Template(f: Fields, body: string): (m: string)
    ensures Text.HasNoNewline(f.from) && Text.HasNoNewline(f.to) && Text.HasNoNewline(f.subject) ==>
      && Text.Lines(m) == ["From: " + f.to, "To: " + f.from, "Subject: " + f.subject, ""] + Text.Lines(body)
      && Text.Join(Text.Lines(m)[4..]) == body
  {
    var m := "From: " + f.to + "\nTo: " + f.from + "\nSubject: " + f.subject + "\n\n" + body;
    if Text.HasNoNewline(f.from) && Text.HasNoNewline(f.to) && Text.HasNoNewline(f.subject) then
      LayoutLines(f.to, f.from, f.subject, body);
      Text.JoinLines(body);
      assert Text.Lines(m)[4..] == Text.Lines(body);
      m
    else m
  }

  /** The raw reply: the template around the vacation body. */
  function RawMessage(f: Fields): string {
    Template(f, VacationBody)
  }

  /** The template's line structure, for any body. */
  lemma LayoutLines(to: string, from: string, subject: string, body: string)
    requires Text.HasNoNewline(from) && Text.HasNoNewline(to) && Text.HasNoNewline(subject)
    ensures Text.Lines("From: " + to + "\nTo: " + from + "\nSubject: " + subject + "\n\n" + body)
         == ["From: " + to, "To: " + from, "Subject: " + subject, ""] + Text.Lines(body)
  {
    var l0, l1, l2 := "From: " + to, "To: " + from, "Subject: " + subject;
    var rest3 := "" + "\n" + body;
    var rest2 := l2 + "\n" + rest3;
    var rest1 := l1 + "\n" + rest2;
    LayoutSplit(to, from, subject, body);
    Text.LinesCons("", body);
    Text.LinesCons(l2, rest3);
    Text.LinesCons(l1, rest2);
    Text.LinesCons(l0, rest1);
  }

  /** The template, regrouped as line, line break, rest. */
  lemma LayoutSplit(to: string, from: string, subject: string, body: string)
    ensures "From: " + to + "\nTo: " + from + "\nSubject: " + subject + "\n\n" + body
         == ("From: " + to) + "\n" + (("To: " + from) + "\n" + (("Subject: " + subject) + "\n" + ("" + "\n" + body)))
  {
    assert "\nTo: " == "\n" + "To: ";
    assert "\nSubject: " == "\n" + "Subject: ";
    assert "\n\n" == "\n" + "" + "\n";
  }

  /** `generateEmailContent`'s encoder chain: standard Base 64 (`toString('base64')`), then every `+`
      becomes `-` and every `/` becomes `_`, then the trailing `=` run is cut. */
  function EncodeRaw(b: seq<Byte>): (s: string)
    ensures forall i :: 0 <= i < |s| ==> Base64.InAlphabet(Base64.UrlSafe, s[i]) && s[i] != '='
    ensures |s| == 4 * (|b| / 3) + [0, 2, 3][|b| % 3]
    ensures Base64.DecodeUnpadded(Base64.UrlSafe, s) == Some(b)
    ensures Base64.RestorePadding(s) == Base64.Encode(Base64.UrlSafe, b)
  {
    var standard := Base64.Encode(Base64.Standard, b);
    var swapped := Text.ReplaceAll(Text.ReplaceAll(standard, '+', '-'), '/', '_');
    EncodeRawIsUnpadded(b);
    TailTable(|b| % 3);
    Base64.DecodeUnpaddedEncode(Base64.UrlSafe, b);
    Base64.RestorePaddingOfUnpadded(Base64.UrlSafe, b);
    Text.StripTrailing(swapped, '=')
  }

  /** The source's three string rewrites yield the RFC 4648 section 5 encoding without padding. */
  lemma EncodeRawIsUnpadded(b: seq<Byte>)
    ensures Text.StripTrailing(Text.ReplaceAll(Text.ReplaceAll(Base64.Encode(Base64.Standard, b), '+', '-'), '/', '_'), '=')
         == Base64.EncodeUnpadded(Base64.UrlSafe, b)
  {
    var unpadded := Base64.EncodeUnpadded(Base64.UrlSafe, b);
    var pad := Base64.Pad(Base64.PadLength(|b|));
    TranslateAlphabet(b);
    assert unpadded == [] || unpadded[|unpadded| - 1] != '=';
    Text.StripTrailingOf(unpadded, pad, '=');
  }

  /** Sextets of a final quantum, by the size of the quantum. */
  lemma TailTable(rem: nat)
    requires rem < 3
    ensures Base64.TailSextets(rem) == [0, 2, 3][rem]
  {
    if rem == 0 {
    } else if rem == 1 {
    } else {
    }
  }

  /** Replacing `+` and `/` turns the RFC 4648 section 4 encoding into the section 5 one. */
  lemma TranslateAlphabet(b: seq<Byte>)
    ensures Text.ReplaceAll(Text.ReplaceAll(Base64.Encode(Base64.Standard, b), '+', '-'), '/', '_')
         == Base64.Encode(Base64.UrlSafe, b)
  {
    var xs := Base64.ToSextets(b);
    var standard := Base64.Encode(Base64.Standard, b);
    var url := Base64.Encode(Base64.UrlSafe, b);
    var swapped := Text.ReplaceAll(Text.ReplaceAll(standard, '+', '-'), '/', '_');
    assert |swapped| == |url|;
    forall i | 0 <= i < |url|
      ensures swapped[i] == url[i]
    {
      if i < |xs| {
        assert standard[i] == Base64.Char(Base64.Standard, xs[i]);
        assert url[i] == Base64.Char(Base64.UrlSafe, xs[i]);
      } else {
        assert standard[i] == '=' && url[i] == '=';
      }
    }
  }

  /** `generateEmailContent`: the reply for `email` and the address it answers. */
  function GenerateEmailContent(email: Message): (r: EmailContent)
    ensures Absent(email.headers, "From") ==> r.from == ""
    ensures forall i | IsLast(email.headers, "From", i) :: r.from == email.headers[i].value
    ensures Base64.DecodeUnpadded(Base64.UrlSafe, r.encodedMessage)
         == Some(Utf8.Encode(RawMessage(ScanHeaders(email.headers))))
  {
    var f := ScanHeaders(email.headers);
    ScanHeadersCollects(email.headers);
    EmailContent(EncodeRaw(Utf8.Encode(RawMessage(f))), f.from)
  }

  /** How a recipient reads the payload back: base64url without padding, then UTF-8. */
  function DecodeReply(encoded: string): Option<string> {
    match Base64.DecodeUnpadded(Base64.UrlSafe, encoded)
    case None => None
    case Some(octets) => Utf8.Decode(octets)
  }

  predicate HeaderValuesOnOneLine(hs: seq<Header>) {
    forall i :: 0 <= i < |hs| ==> Text.HasNoNewline(hs[i].value)
  }

  lemma ScannedOnOneLine(hs: seq<Header>)
    requires HeaderValuesOnOneLine(hs)
    ensures var f := ScanHeaders(hs);
      Text.HasNoNewline(f.from) && Text.HasNoNewline(f.to) && Text.HasNoNewline(f.subject)
  {
    var f := ScanHeaders(hs);
    ScanHeadersCollects(hs);
    if !Absent(hs, "From") {
      LastExists(hs, "From");
    }
    if !Absent(hs, "To") {
      LastExists(hs, "To");
    }
    if !Absent(hs, "Subject") {
      LastExists(hs, "Subject");
      var i :| IsLast(hs, "Subject", i);
      assert f.subject == "Re: " + hs[i].value;
    }
  }

  /** Decoding the payload, base64url then UTF-8, gives the reply text back. */
  lemma ReplyDecodes(email: Message)
    ensures DecodeReply(GenerateEmailContent(email).encodedMessage) == Some(RawMessage(ScanHeaders(email.headers)))
  {
    Utf8.DecodeEncode(RawMessage(ScanHeaders(email.headers)));
  }

  /** End to end: decoding the payload gives the reply text back, and that text
      is the three swapped header lines, a blank line and the vacation body. */
  lemma ReplyReadsBack(email: Message)
    requires HeaderValuesOnOneLine(email.headers)
    ensures var f := ScanHeaders(email.headers);
      var m := DecodeReply(GenerateEmailContent(email).encodedMessage);
      && m == Some(RawMessage(f))
      && |Text.Lines(m.value)| > 4
      && Text.Lines(m.value)[..4] == ["From: " + f.to, "To: " + f.from, "Subject: " + f.subject, ""]
      && Text.Join(Text.Lines(m.value)[4..]) == VacationBody
  {
    ReplyDecodes(email);
    ScannedOnOneLine(email.headers);
  }

  /** The worked example: a reply to "Hi" from a@x.com to b@y.com. */
  lemma ExampleReply(email: Message)
    requires email.headers == [Header("From", "a@x.com"), Header("To", "b@y.com"), Header("Subject", "Hi")]
    ensures var r := GenerateEmailContent(email);
      && r.from == "a@x.com"
      && DecodeReply(r.encodedMessage).Some?
      && |Text.Lines(DecodeReply(r.encodedMessage).value)| > 4
      && Text.Lines(DecodeReply(r.encodedMessage).value)[..4]
         == ["From: b@y.com", "To: a@x.com", "Subject: Re: Hi", ""]
      && Text.Join(Text.Lines(DecodeReply(r.encodedMessage).value)[4..]) == VacationBody
  {
    ExampleFields(email.headers);
    ReplyReadsBack(email);
    ExampleLines();
  }

  lemma ExampleFields(hs: seq<Header>)
    requires hs == [Header("From", "a@x.com"), Header("To", "b@y.com"), Header("Subject", "Hi")]
    ensures ScanHeaders(hs) == Fields("a@x.com", "b@y.com", "Re: " + "Hi")
    ensures HeaderValuesOnOneLine(hs)
  {
    var f0 := ScanHeaders(hs[..1]);
    var f1 := ScanHeaders(hs[..2]);
    assert hs[..1][..0] == [] && hs[..2][..1] == hs[..1] && hs[..3] == hs;
    assert |"From"| != |"To"| && |"From"| != |"Subject"| && |"To"| != |"Subject"|;
    assert ScanHeaders(hs[..1][..0]) == Fields("", "", "") && hs[..1][0] == hs[0];
    ScanStepFields(Fields("", "", ""), hs[0]);
    assert f0 == Fields("a@x.com", "", "");
    ScanStepFields(f0, hs[1]);
    assert f1 == Fields("a@x.com", "b@y.com", "");
    ScanStepFields(f1, hs[2]);
  }

  lemma ExampleLines()
    ensures "From: " + "b@y.com" == "From: b@y.com"
    ensures "To: " + "a@x.com" == "To: a@x.com"
    ensures "Subject: " + ("Re: " + "Hi") == "Subject: Re: Hi"
  {
  }
}
