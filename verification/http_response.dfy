/** The response builder (`HttpResponse`) and its wire serialization
    (`HttpResponse::data`). A response holds a 32-bit status, a header store
    and a body; `send` installs the body and a default content type, and
    `data` renders the status line, every stored header under the caller's
    spelling, an injected `content-length` when none was set, the fixed
    `server: lightning` header, a blank line and the body.

    The source's strings are `std::string`s of bytes. Here each `char` stands
    for one byte, so `content-length`, the body's length, counts bytes as
    `std::string::size` does. The stored headers are written in the header
    store's order, which the model fixes as insertion order; the source walks
    a hash map, whose order is unspecified. */
module Responses {
  import opened Wrappers
  import opened Text
  import opened Headers

  type uint32 = x: int | 0 <= x < 0x1_0000_0000

  datatype HttpResponse = HttpResponse(status: uint32, headers: HttpHeader, body: string)

  /** The content type `send` installs when the handler set none. */
  const DefaultContentType: string := "text/plain; charset=utf-8"

  /** A response as the dispatcher creates it: status 0, no headers, empty body. */
  function NewResponse(): (r: HttpResponse)
    ensures r.status == 0 && Size(r.headers) == 0 && r.body == ""
  {
    HttpResponse(0, EmptyHeader(), "")
  }

  /** `status(s)`: only the status changes. */
  function WithStatus(r: HttpResponse, s: uint32): (r': HttpResponse)
    ensures r'.status == s && r'.headers == r.headers && r'.body == r.body
  {
    r.(status := s)
  }

  /** `send(d)`: the body becomes exactly `d`, the status stays, and a
      content type is guaranteed: an existing one (under any spelling) is kept,
      otherwise `content-type: text/plain; charset=utf-8` is added. */
  function Send(r: HttpResponse, d: string): (r': HttpResponse)
    ensures r'.body == d && r'.status == r.status
    ensures Contains(r'.headers, "content-type")
    ensures Contains(r.headers, "content-type") ==> r'.headers == r.headers
    ensures !Contains(r.headers, "content-type") ==>
      r'.headers.entries == r.headers.entries + [Entry("content-type", "content-type", DefaultContentType)]
    ensures Valid(r.headers) ==> Valid(r'.headers)
  {
    if Contains(r.headers, "content-type") then HttpResponse(r.status, r.headers, d)
    else
      var h := Set(r.headers, "content-type", DefaultContentType);
      LowerOfLowercase("content-type");
      assert h.entries[|r.headers.entries|].key == Lower("content-type");
      HttpResponse(r.status, h, d)
  }

  /** One header line as `data` writes it. */
  function HeaderLine(name: string, value: string): string {
    name + ": " + value + "\r\n"
  }

  function HeaderLines(entries: seq<Entry>): string {
    if |entries| == 0 then ""
    else HeaderLines(entries[..|entries| - 1])
         + HeaderLine(entries[|entries| - 1].name, entries[|entries| - 1].value)
  }

  /** The layout `Data` writes: the status line leads and the body follows
      a blank line. */
  lemma Framing(status: string, hl: string, cl: string, srv: string, body: string)
    requires |status| >= 9
    ensures var d := status + hl + cl + srv + "\r\n" + "\r\n" + body;
      && 9 + 4 + |body| <= |d| && d[..9] == status[..9]
      && d[|d| - |body| - 4..] == "\r\n\r\n" + body
  {
  }

  /** The status line starts with the protocol and a space. */
  lemma StatusLead(n: nat)
    ensures ("HTTP/1.1 " + Decimal(n) + " \r\n")[..9] == "HTTP/1.1 "
  {
  }

  /** `HttpResponse::data`: the bytes written to the socket. It reads the
      response and changes nothing in it. The status line comes first, and
      the body follows the blank line that ends the header block. */
  function Data(r: HttpResponse): (d: string)
    ensures 9 + 4 + |r.body| <= |d| && d[..9] == "HTTP/1.1 "
    ensures d[|d| - |r.body| - 4..] == "\r\n\r\n" + r.body
  {
    var cl := if !Contains(r.headers, "content-length")
              then HeaderLine("content-length", Decimal(|r.body|)) else "";
    StatusLead(r.status);
    Framing("HTTP/1.1 " + Decimal(r.status) + " \r\n", HeaderLines(r.headers.entries), cl, "server: lightning", r.body);
    "HTTP/1.1 " + Decimal(r.status) + " \r\n"
    + HeaderLines(r.headers.entries)
    + cl
    + "server: lightning" + "\r\n"
    + "\r\n"
    + r.body
  }

  // ---------------------------------------------------------------------------
  // A reader for the wire format, used to state what `Data` produces.
  // ---------------------------------------------------------------------------

  datatype Field = Field(name: string, value: string)

  /** A response as a client reads it back: status code, header lines in
      order, body. */
  datatype WireMessage = WireMessage(status: nat, fields: seq<Field>, body: string)

  /** A header line can be read back when its name has no `:` and neither
      part contains a carriage return. */
  predicate FieldReadable(f: Field) {
    ':' !in f.name && '\r' !in f.name && '\r' !in f.value
  }

  /** Reads header lines up to the blank line; the rest is the body. */
  function ParseFields(s: string): Option<(seq<Field>, string)>
    decreases |s|
  {
    if |s| >= 2 && s[..2] == "\r\n" then Some(([], s[2..]))
    else
      var line := TakeUntil(s, '\r');
      var rest := s[|line|..];
      if !(|rest| >= 2 && rest[..2] == "\r\n") then None
      else
        var name := TakeUntil(line, ':');
        var tail := line[|name|..];
        if !(|tail| >= 2 && tail[..2] == ": ") then None
        else match ParseFields(rest[2..])
          case None => None
          case Some(p) => Some(([Field(name, tail[2..])] + p.0, p.1))
  }

  /** Reads the status line `HTTP/1.1 <digits> \r\n`; returns the code and the rest. */
  function ParseStatusLine(s: string): Option<(nat, string)> {
    if !(|s| >= 9 && s[..9] == "HTTP/1.1 ") then None
    else
      var code := TakeUntil(s[9..], ' ');
      var rest := s[9 + |code|..];
      if !(|code| > 0 && AllDigits(code)) then None
      else if !(|rest| >= 3 && rest[..3] == " \r\n") then None
      else Some((DigitsValue(code), rest[3..]))
  }

  /** Reads a whole response: status line, header lines, blank line, body. */
  function ParseWire(s: string): Option<WireMessage> {
    match ParseStatusLine(s)
    case None => None
    case Some(sl) =>
      match ParseFields(sl.1)
      case None => None
      case Some(p) => Some(WireMessage(sl.0, p.0, p.1))
  }

  /** The header lines `data` writes for a response, in order: every stored
      entry under its original spelling, then `content-length` exactly when no
      such header is stored, then `server: lightning`. */
  function WireFields(r: HttpResponse): seq<Field> {
    EntryFields(r.headers.entries)
    + (if Contains(r.headers, "content-length") then [] else [Field("content-length", Decimal(|r.body|))])
    + [Field("server", "lightning")]
  }

  function EntryFields(entries: seq<Entry>): (fs: seq<Field>)
    ensures |fs| == |entries|
    ensures forall i :: 0 <= i < |entries| ==> fs[i] == Field(entries[i].name, entries[i].value)
  {
    seq(|entries|, i requires 0 <= i < |entries| => Field(entries[i].name, entries[i].value))
  }

  function FieldLines(fs: seq<Field>): string {
    if |fs| == 0 then "" else HeaderLine(fs[0].name, fs[0].value) + FieldLines(fs[1..])
  }

  lemma {:induction false} FieldLinesAppend(a: seq<Field>, b: seq<Field>)
    ensures FieldLines(a + b) == FieldLines(a) + FieldLines(b)
    decreases |a|
  {
    if |a| > 0 {
      assert (a + b)[0] == a[0];
      assert (a + b)[1..] == a[1..] + b;
      FieldLinesAppend(a[1..], b);
    } else {
      assert a + b == b;
    }
  }

  lemma {:induction false} HeaderLinesAsFields(entries: seq<Entry>)
    ensures HeaderLines(entries) == FieldLines(EntryFields(entries))
    decreases |entries|
  {
    if |entries| > 0 {
      var init := entries[..|entries| - 1];
      var last := entries[|entries| - 1];
      HeaderLinesAsFields(init);
      assert EntryFields(entries) == EntryFields(init) + [Field(last.name, last.value)];
      FieldLinesAppend(EntryFields(init), [Field(last.name, last.value)]);
    }
  }

  /** Cutting `a + sep + b` at the first `sep[0]`, where `a` holds none: the
      piece is `a` and what follows starts with `sep`, then `b`. */
  lemma CutAt(a: string, sep: string, b: string)
    requires |sep| == 2 && sep[0] !in a
    ensures TakeUntil(a + sep + b, sep[0]) == a
    ensures (a + sep + b)[|a|..][..2] == sep
    ensures (a + sep + b)[|a|..][2..] == b
  {
    assert a + sep + b == a + [sep[0]] + ([sep[1]] + b);
    TakeUntilStops(a, sep[0], [sep[1]] + b);
    assert (a + sep + b)[|a|..] == sep + b;
  }

  /** One readable header line is read as that field, followed by whatever
      the rest of the input reads as. */
  lemma ParseFieldsStep(f: Field, after: string)
    requires FieldReadable(f)
    ensures ParseFields(HeaderLine(f.name, f.value) + after)
      == match ParseFields(after)
         case None => None
         case Some(p) => Some(([f] + p.0, p.1))
  {
    var s := HeaderLine(f.name, f.value) + after;
    var lineText := f.name + ": " + f.value;
    assert s == lineText + "\r\n" + after;
    assert '\r' !in lineText;
    CutAt(lineText, "\r\n", after);
    CutAt(f.name, ": ", f.value);
    assert s[0] != '\r' by {
      if |f.name| == 0 {
        assert s[0] == ':';
      } else {
        assert s[0] == f.name[0];
      }
    }
  }

  /** Reading back the header lines and blank line of readable fields gives
      the fields and leaves the body verbatim. */
  lemma {:induction false} ParseFieldsRoundTrip(fs: seq<Field>, body: string)
    requires forall i :: 0 <= i < |fs| ==> FieldReadable(fs[i])
    ensures ParseFields(FieldLines(fs) + "\r\n" + body) == Some((fs, body))
    decreases |fs|
  {
    if |fs| > 0 {
      var after := FieldLines(fs[1..]) + "\r\n" + body;
      assert FieldLines(fs) + "\r\n" + body == HeaderLine(fs[0].name, fs[0].value) + after;
      ParseFieldsStep(fs[0], after);
      ParseFieldsRoundTrip(fs[1..], body);
      assert [fs[0]] + fs[1..] == fs;
    } else {
      assert (FieldLines(fs) + "\r\n" + body)[2..] == body;
    }
  }

  /** The stored headers can be read back when their names have no `:` and
      no part carries a carriage return. */
  predicate HeadersReadable(h: HttpHeader) {
    forall i :: 0 <= i < |h.entries| ==> FieldReadable(Field(h.entries[i].name, h.entries[i].value))
  }

  /** A wire message laid out as `data` lays one out. */
  function RenderWire(w: WireMessage): string {
    "HTTP/1.1 " + Decimal(w.status) + " \r\n" + FieldLines(w.fields) + "\r\n" + w.body
  }

  lemma StatusLineRoundTrip(n: nat, tail: string)
    ensures ParseStatusLine("HTTP/1.1 " + Decimal(n) + " \r\n" + tail) == Some((n, tail))
  {
    var dec := Decimal(n);
    var rest := " \r\n" + tail;
    var after := dec + rest;
    var s := "HTTP/1.1 " + dec + " \r\n" + tail;
    assert |s| >= 9 && s[..9] == "HTTP/1.1 " && s[9..] == after by {
      assert s == "HTTP/1.1 " + after;
      PrefixSplit("HTTP/1.1 ", after);
    }
    assert TakeUntil(after, ' ') == dec && after[|dec|..] == rest by {
      assert after == dec + [' '] + ("\r\n" + tail);
      TakeUntilStops(dec, ' ', "\r\n" + tail);
      PrefixSplit(dec, rest);
    }
    assert s[9 + |dec|..] == rest by {
      assert s[9 + |dec|..] == s[9..][|dec|..];
    }
    assert |rest| >= 3 && rest[..3] == " \r\n" && rest[3..] == tail by {
      PrefixSplit(" \r\n", tail);
    }
    DecimalRoundTrip(n);
  }

  /** A concatenation splits back into its parts at the first part's length. */
  lemma PrefixSplit(a: string, b: string)
    ensures (a + b)[..|a|] == a && (a + b)[|a|..] == b
  {
  }

  /** Every field of a sequence can be read back. */
  predicate AllReadable(fs: seq<Field>) {
    forall i :: 0 <= i < |fs| ==> FieldReadable(fs[i])
  }

  lemma AllReadableConcat(a: seq<Field>, b: seq<Field>)
    requires AllReadable(a) && AllReadable(b)
    ensures AllReadable(a + b)
  {
    var ab := a + b;
    forall i | 0 <= i < |ab|
      ensures FieldReadable(ab[i])
    {
      if i < |a| {
        assert ab[i] == a[i];
      } else {
        assert ab[i] == b[i - |a|];
      }
    }
  }

  /** The reader recovers every message whose header lines are readable. */
  lemma RenderWireRoundTrip(w: WireMessage)
    requires AllReadable(w.fields)
    ensures ParseWire(RenderWire(w)) == Some(w)
  {
    var tail := FieldLines(w.fields) + "\r\n" + w.body;
    assert RenderWire(w) == "HTTP/1.1 " + Decimal(w.status) + " \r\n" + tail;
    StatusLineRoundTrip(w.status, tail);
    ParseFieldsRoundTrip(w.fields, w.body);
  }

  /** Three groups of fields render one after another. */
  lemma FieldLinesThree(a: seq<Field>, b: seq<Field>, c: seq<Field>)
    ensures FieldLines(a + b + c) == FieldLines(a) + FieldLines(b) + FieldLines(c)
  {
    FieldLinesAppend(a, b);
    FieldLinesAppend(a + b, c);
  }

  /** The header block of `data` is the header lines of `WireFields`. */
  lemma HeaderBlockAsFields(r: HttpResponse, cls: string)
    requires cls == if Contains(r.headers, "content-length") then ""
                    else HeaderLine("content-length", Decimal(|r.body|))
    ensures FieldLines(WireFields(r)) == HeaderLines(r.headers.entries) + cls + ("server: lightning" + "\r\n")
  {
    var cl := if Contains(r.headers, "content-length") then [] else [Field("content-length", Decimal(|r.body|))];
    var server := [Field("server", "lightning")];
    HeaderLinesAsFields(r.headers.entries);
    FieldLinesThree(EntryFields(r.headers.entries), cl, server);
    if |cl| > 0 {
      OneFieldLine(cl[0]);
    }
    OneFieldLine(server[0]);
    ServerLine();
  }

  /** A single field renders as its header line. */
  lemma OneFieldLine(f: Field)
    ensures FieldLines([f]) == HeaderLine(f.name, f.value)
  {
    assert [f][1..] == [];
  }

  /** The server line as `data` spells it is the header line of the field. */
  lemma ServerLine()
    ensures HeaderLine("server", "lightning") == "server: lightning" + "\r\n"
  {
  }

  lemma DataLayout(r: HttpResponse, cls: string)
    requires cls == if Contains(r.headers, "content-length") then ""
                    else HeaderLine("content-length", Decimal(|r.body|))
    ensures Data(r) == "HTTP/1.1 " + Decimal(r.status) + " \r\n" + HeaderLines(r.headers.entries)
                       + cls + "server: lightning" + "\r\n" + "\r\n" + r.body
  {
  }

  lemma Regroup(start: string, hl: string, cls: string, body: string)
    ensures start + hl + cls + "server: lightning" + "\r\n" + "\r\n" + body
         == start + (hl + cls + ("server: lightning" + "\r\n")) + "\r\n" + body
  {
  }

  /** `data` is the rendering of the response's wire view. */
  lemma DataIsRenderWire(r: HttpResponse)
    ensures Data(r) == RenderWire(WireMessage(r.status, WireFields(r), r.body))
  {
    var cls := if Contains(r.headers, "content-length") then ""
               else HeaderLine("content-length", Decimal(|r.body|));
    HeaderBlockAsFields(r, cls);
    DataLayout(r, cls);
    Regroup("HTTP/1.1 " + Decimal(r.status) + " \r\n", HeaderLines(r.headers.entries), cls, r.body);
  }

  /** The two lines `data` adds itself can be read back. */
  lemma AddedFieldsReadable(length: string)
    requires '\r' !in length
    ensures FieldReadable(Field("content-length", length))
    ensures FieldReadable(Field("server", "lightning"))
  {
    assert "content-length" == ['c', 'o', 'n', 't', 'e', 'n', 't', '-', 'l', 'e', 'n', 'g', 't', 'h'];
    assert "server" == ['s', 'e', 'r', 'v', 'e', 'r'];
  }

  /** Every line `data` writes can be read back when the stored headers can:
      the two lines it adds itself always can. */
  lemma WireFieldsReadable(r: HttpResponse)
    requires HeadersReadable(r.headers)
    ensures AllReadable(WireFields(r))
  {
    var ef := EntryFields(r.headers.entries);
    var cl := if Contains(r.headers, "content-length") then [] else [Field("content-length", Decimal(|r.body|))];
    var server := [Field("server", "lightning")];
    assert AllReadable(ef) by {
      forall i | 0 <= i < |ef|
        ensures FieldReadable(ef[i])
      {
        assert ef[i] == Field(r.headers.entries[i].name, r.headers.entries[i].value);
      }
    }
    AddedFieldsReadable(Decimal(|r.body|));
    assert AllReadable(cl) by {
      if |cl| > 0 {
        assert cl[0] == Field("content-length", Decimal(|r.body|));
      }
    }
    assert AllReadable(server) by {
      assert server[0] == Field("server", "lightning");
    }
    AllReadableConcat(ef, cl);
    AllReadableConcat(ef + cl, server);
    assert WireFields(r) == ef + cl + server;
  }

  /** What `data` puts on the wire, read back by a client: the status, one
      line per stored header with its original-case name and value, an
      injected `content-length: <|body|>` exactly when the store has no
      content-length under any spelling, `server: lightning`, and the body
      copied verbatim after the blank line. */
  lemma DataRoundTrip(r: HttpResponse)
    requires HeadersReadable(r.headers)
    ensures ParseWire(Data(r)) == Some(WireMessage(r.status, WireFields(r), r.body))
  {
    var w := WireMessage(r.status, WireFields(r), r.body);
    DataIsRenderWire(r);
    WireFieldsReadable(r);
    RenderWireRoundTrip(w);
  }

  /** `status(200).send(d)` on a fresh response: the one header is the
      content type `send` added. */
  lemma SentFresh(r: HttpResponse, d: string)
    requires r == Send(WithStatus(NewResponse(), 200), d)
    ensures r.status == 200 && r.body == d
    ensures r.headers.entries == [Entry("content-type", "content-type", DefaultContentType)]
  {
  }

  /** The wire fields of a response whose one header is not `content-length`. */
  lemma OneHeaderWireFields(r: HttpResponse, e: Entry)
    requires r.headers.entries == [e] && e.key != "content-length"
    ensures WireFields(r) == [Field(e.name, e.value), Field("content-length", Decimal(|r.body|)), Field("server", "lightning")]
  {
    assert Lower("content-length") == "content-length";
    assert !Contains(r.headers, "content-length");
    assert EntryFields(r.headers.entries) == [Field(e.name, e.value)];
  }

  /** The header line `send` adds can be read back. */
  lemma ContentTypeReadable()
    ensures FieldReadable(Field("content-type", DefaultContentType))
  {
    assert DefaultContentType == "text/plain; charset=utf-8";
  }

  /** A response with status 200, the one header `content-type` and body
      `Hello World!`, as a client reads it back. */
  lemma HelloWorldWire(r: HttpResponse)
    requires r.status == 200 && r.body == "Hello World!"
    requires r.headers.entries == [Entry("content-type", "content-type", DefaultContentType)]
    ensures WireFields(r) == [
      Field("content-type", DefaultContentType), Field("content-length", "12"), Field("server", "lightning")]
    ensures ParseWire(Data(r)) == Some(WireMessage(200, WireFields(r), "Hello World!"))
  {
    var ct := Entry("content-type", "content-type", DefaultContentType);
    OneHeaderWireFields(r, ct);
    assert Decimal(|r.body|) == "12" by {
      assert |r.body| == 12;
      assert Decimal(1) == "1";
    }
    assert HeadersReadable(r.headers) by {
      assert r.headers.entries[0] == ct;
      ContentTypeReadable();
    }
    DataRoundTrip(r);
  }

  /** The handler of the server test `test_get_simple_text` answers with
      `status(200).send("Hello World!")`; `data()` of that response reads back
      as status 200, the content type `send` added, an injected
      `content-length: 12`, the server line and the body. The response write
      is a stub, so these bytes are what the server would send, not what a
      client receives. */
  lemma HelloWorldExample(r: HttpResponse)
    requires r == Send(WithStatus(NewResponse(), 200), "Hello World!")
    ensures WireFields(r) == [
      Field("content-type", DefaultContentType), Field("content-length", "12"), Field("server", "lightning")]
    ensures ParseWire(Data(r)) == Some(WireMessage(200, WireFields(r), "Hello World!"))
  {
    SentFresh(r, "Hello World!");
    HelloWorldWire(r);
  }
}
