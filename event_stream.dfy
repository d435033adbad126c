/**
 * The broker's outbound message and its frame in the Server-Sent Events
 * stream format (WHATWG HTML Living Standard, section 9.2.5, "Parsing an
 * event stream"): an id line, an event line, a data line and a blank line.
 */
module EventStream {
  import opened Wrappers

  /** One event as the broker hands it to a subscriber channel. */
  datatype Message = Message(id: int, event: string, data: string)

  /** The frame a session writes when its ticker fires: Go's zero id, kind "timeout", payload "30s". */
  function TimeoutMessage(): (m: Message)
    ensures Decode(Encode(m)) == Some(m)
  {
    var m := Message(0, "timeout", "30s");
    DecodeEncode(m);
    m
  }

  // ---------------------------------------------------------------------
  // Decimal text of an integer, as Go's %v prints an int
  // ---------------------------------------------------------------------

  predicate IsDigit(c: char)
  {
    '0' <= c <= '9'
  }

  predicate AllDigits(s: string)
  {
    forall k :: 0 <= k < |s| ==> IsDigit(s[k])
  }

  function DigitChar(d: nat): (c: char)
    requires d < 10
    ensures IsDigit(c) && c as int - '0' as int == d
  {
    ('0' as int + d) as char
  }

  /** Most significant digit first, no leading zeros, "0" for zero. */
  function NatDecimal(n: nat): (s: string)
    ensures 1 <= |s| && AllDigits(s)
    ensures |s| > 1 ==> s[0] != '0'
    decreases n
  {
    if n < 10 then [DigitChar(n)] else NatDecimal(n / 10) + [DigitChar(n % 10)]
  }

  /** A minus sign before the magnitude of a negative number. */
  function IntDecimal(i: int): (s: string)
    ensures 1 <= |s| && NoLineBreak(s)
    ensures (s[0] == '-') == (i < 0)
  {
    if i < 0 then "-" + NatDecimal(-i) else NatDecimal(i)
  }

  /** The value of a string of decimal digits (zero for the empty string). */
  function DigitsValue(s: string): nat
    requires AllDigits(s)
    decreases |s|
  {
    if |s| == 0 then 0
    else DigitsValue(s[..|s| - 1]) * 10 + (s[|s| - 1] as int - '0' as int)
  }

  /** Reads back an optional minus sign followed by at least one digit. */
  function ParseInt(s: string): Option<int>
  {
    if 2 <= |s| && s[0] == '-' && AllDigits(s[1..]) then Some(0 - DigitsValue(s[1..]) as int)
    else if 1 <= |s| && AllDigits(s) then Some(DigitsValue(s))
    else None
  }

  lemma {:induction false} NatDecimalValue(n: nat)
    ensures DigitsValue(NatDecimal(n)) == n
    decreases n
  {
    if n >= 10 {
      var s := NatDecimal(n);
      assert s[..|s| - 1] == NatDecimal(n / 10);
      NatDecimalValue(n / 10);
    }
  }

  /** The id line's number reads back as the id that was written. */
  lemma IntDecimalRoundTrip(i: int)
    ensures ParseInt(IntDecimal(i)) == Some(i)
  {
    var s := IntDecimal(i);
    if i < 0 {
      assert s[1..] == NatDecimal(-i);
      assert 2 <= |s| && s[0] == '-' && AllDigits(s[1..]);
      NatDecimalValue(-i);
    } else {
      assert s == NatDecimal(i) && IsDigit(s[0]);
      NatDecimalValue(i);
    }
  }

  // ---------------------------------------------------------------------
  // The frame written by sendMessage
  // ---------------------------------------------------------------------

  /** "id: <n>\n", "event: <e>\n", "data: <d>\n\n", written one after the other. */
  function Encode(m: Message): (frame: string)
    ensures |frame| >= 2 && frame[|frame| - 2..] == "\n\n"
    ensures |frame| > 4 && frame[..4] == "id: "
  {
    "id: " + IntDecimal(m.id) + "\n" + "event: " + m.event + "\n" + "data: " + m.data + "\n\n"
  }

  /**
   * What the response writer has received after a run of frames: every
   * write ends on a frame boundary, with a blank line.
   */
  function Stream(frames: seq<Message>): (out: string)
    ensures (out == "") == (frames == [])
    ensures frames != [] ==> |out| >= 2 && out[|out| - 2..] == "\n\n"
  {
    if |frames| == 0 then "" else Stream(frames[..|frames| - 1]) + Encode(frames[|frames| - 1])
  }

  lemma StreamSnoc(frames: seq<Message>, m: Message)
    ensures Stream(frames + [m]) == Stream(frames) + Encode(m)
  {
    assert (frames + [m])[..|frames|] == frames;
  }

  // ---------------------------------------------------------------------
  // Reading a frame back, with the line breaks section 9.2.5 recognises
  // ---------------------------------------------------------------------

  predicate IsLineBreak(c: char)
  {
    c == '\n' || c == '\r'
  }

  predicate NoLineBreak(s: string)
  {
    '\n' !in s && '\r' !in s
  }

  /**
   * The lines of s, each ended by CRLF, LF or CR; the last piece is what
   * follows the final line break (always at least one piece).
   */
  function Lines(s: string): (lines: seq<string>)
    ensures |lines| >= 1
    ensures NoLineBreak(s) ==> lines == [s]
    ensures forall l :: l in lines ==> NoLineBreak(l)
    decreases |s|
  {
    if |s| == 0 then [""]
    else if s[0] == '\r' && 2 <= |s| && s[1] == '\n' then [""] + Lines(s[2..])
    else if IsLineBreak(s[0]) then [""] + Lines(s[1..])
    else
      var rest := Lines(s[1..]);
      assert NoLineBreak(s) ==> [s[0]] + s[1..] == s;
      assert NoLineBreak([s[0]] + rest[0]) by {
        assert rest[0] in rest;
        assert forall c :: c in [s[0]] + rest[0] ==> c == s[0] || c in rest[0];
      }
      assert forall l :: l in rest[1..] ==> l in rest;
      [[s[0]] + rest[0]] + rest[1..]
  }

  /** A piece free of line breaks, followed by LF, comes off as one line. */
  lemma {:induction false} LinesBreak(a: string, c: string)
    requires NoLineBreak(a)
    ensures Lines(a + "\n" + c) == [a] + Lines(c)
    decreases |a|
  {
    var s := a + "\n" + c;
    if |a| == 0 {
      assert s[1..] == c;
    } else {
      assert s[1..] == a[1..] + "\n" + c;
      LinesBreak(a[1..], c);
      assert [a[0]] + a[1..] == a;
    }
  }

  /** When event and data hold no line break, a frame reads as its three field lines, the blank line, and nothing after. */
  lemma LinesEncode(m: Message)
    requires NoLineBreak(m.event) && NoLineBreak(m.data)
    ensures Lines(Encode(m)) == ["id: " + IntDecimal(m.id), "event: " + m.event, "data: " + m.data, "", ""]
  {
    var l0, l1, l2 := "id: " + IntDecimal(m.id), "event: " + m.event, "data: " + m.data;
    assert Encode(m) == l0 + "\n" + (l1 + "\n" + (l2 + "\n" + ("" + "\n" + "")));
    LinesBreak("", "");
    LinesBreak(l2, "" + "\n" + "");
    LinesBreak(l1, l2 + "\n" + ("" + "\n" + ""));
    LinesBreak(l0, l1 + "\n" + (l2 + "\n" + ("" + "\n" + "")));
  }

  predicate HasPrefix(s: string, p: string)
  {
    |p| <= |s| && s[..|p|] == p
  }

  /**
   * A reader of one frame: exactly the three field lines, in order, then the
   * blank line, and an id that parses as an integer.
   */
  function Decode(frame: string): Option<Message>
  {
    var lines := Lines(frame);
    if |lines| == 5 && lines[3] == "" && lines[4] == ""
       && HasPrefix(lines[0], "id: ") && HasPrefix(lines[1], "event: ") && HasPrefix(lines[2], "data: ")
    then
      match ParseInt(lines[0][4..])
      case Some(id) => Some(Message(id, lines[1][7..], lines[2][6..]))
      case None => None
    else None
  }

  /** A frame whose event and data hold no line break reads back as the message written. */
  lemma DecodeEncode(m: Message)
    requires NoLineBreak(m.event) && NoLineBreak(m.data)
    ensures Decode(Encode(m)) == Some(m)
  {
    LinesEncode(m);
    IntDecimalRoundTrip(m.id);
    assert ("id: " + IntDecimal(m.id))[4..] == IntDecimal(m.id);
    assert ("event: " + m.event)[7..] == m.event;
    assert ("data: " + m.data)[6..] == m.data;
  }

  /** Whatever the reader accepts has an event and data free of line breaks. */
  lemma DecodeNoLineBreak(frame: string)
    ensures Decode(frame).Some? ==> NoLineBreak(Decode(frame).value.event) && NoLineBreak(Decode(frame).value.data)
  {
    var lines := Lines(frame);
    if Decode(frame).Some? {
      assert lines[1] in lines && lines[2] in lines;
      NoLineBreakSuffix(lines[1], 7);
      NoLineBreakSuffix(lines[2], 6);
    }
  }

  lemma NoLineBreakSuffix(s: string, k: nat)
    requires NoLineBreak(s) && k <= |s|
    ensures NoLineBreak(s[k..])
  {
    assert forall c :: c in s[k..] ==> c in s;
  }

  /** A message reads back from its frame exactly when its event and data hold no line break. */
  lemma DecodeEncodeIff(m: Message)
    ensures Decode(Encode(m)) == Some(m) <==> NoLineBreak(m.event) && NoLineBreak(m.data)
  {
    if NoLineBreak(m.event) && NoLineBreak(m.data) {
      DecodeEncode(m);
    } else {
      DecodeNoLineBreak(Encode(m));
    }
  }

  /**
   * The body is written raw after "data: ", so a body with a line break
   * splits the frame: its tail becomes a line of its own and this frame no
   * longer reads back at all.
   */
  lemma LineBreakInBody()
    ensures Decode(Encode(Message(0, "msg", "a\nb"))) == None
  {
    var m := Message(0, "msg", "a\nb");
    assert IntDecimal(0) == "0";
    assert Encode(m) == "id: 0" + "\n" + ("event: msg" + "\n" + ("data: a" + "\n" + ("b" + "\n" + ("" + "\n" + ""))));
    LinesBreak("", "");
    LinesBreak("b", "" + "\n" + "");
    LinesBreak("data: a", "b" + "\n" + ("" + "\n" + ""));
    LinesBreak("event: msg", "data: a" + "\n" + ("b" + "\n" + ("" + "\n" + "")));
    LinesBreak("id: 0", "event: msg" + "\n" + ("data: a" + "\n" + ("b" + "\n" + ("" + "\n" + ""))));
    assert |Lines(Encode(m))| == 6;
  }

  /** A piece free of line breaks, followed by CRLF, comes off as one line. */
  lemma {:induction false} LinesCrLf(a: string, c: string)
    requires NoLineBreak(a)
    ensures Lines(a + "\r\n" + c) == [a] + Lines(c)
    decreases |a|
  {
    var s := a + "\r\n" + c;
    if |a| == 0 {
      assert s[2..] == c;
    } else {
      assert s[1..] == a[1..] + "\r\n" + c;
      LinesCrLf(a[1..], c);
      assert [a[0]] + a[1..] == a;
    }
  }

  /**
   * A body ending in CR reads back as a different message: the CR and the
   * LF the frame writes after the data form one CRLF line break, so the CR
   * is lost.
   */
  lemma TrailingCarriageReturn(m: Message, d: string)
    requires NoLineBreak(m.event) && NoLineBreak(d) && m.data == d + "\r"
    ensures Decode(Encode(m)) == Some(m.(data := d))
  {
    LinesTrailingCarriageReturn(m, d);
    IntDecimalRoundTrip(m.id);
    assert ("id: " + IntDecimal(m.id))[4..] == IntDecimal(m.id);
    assert ("event: " + m.event)[7..] == m.event;
    assert ("data: " + d)[6..] == d;
  }

  lemma LinesTrailingCarriageReturn(m: Message, d: string)
    requires NoLineBreak(m.event) && NoLineBreak(d) && m.data == d + "\r"
    ensures Lines(Encode(m)) == ["id: " + IntDecimal(m.id), "event: " + m.event, "data: " + d, "", ""]
  {
    var l0, l1, l2 := "id: " + IntDecimal(m.id), "event: " + m.event, "data: " + d;
    var tail := "" + "\n" + "";
    assert Encode(m) == l0 + "\n" + (l1 + "\n" + (l2 + "\r\n" + tail));
    LinesBreak("", "");
    LinesCrLf(l2, tail);
    LinesBreak(l1, l2 + "\r\n" + tail);
    LinesBreak(l0, l1 + "\n" + (l2 + "\r\n" + tail));
  }

  /** The timeout frame, byte for byte. */
  lemma TimeoutFrame()
    ensures Encode(TimeoutMessage()) == "id: 0\nevent: timeout\ndata: 30s\n\n"
  {
    var m := Message(0, "timeout", "30s");
    assert Encode(m) == "id: 0\nevent: timeout\ndata: 30s\n\n" by {
      assert IntDecimal(0) == "0";
    }
    assert TimeoutMessage() == m;
  }
}
