/** RemoteSyslogAppender::_append: a message is cut in place into packets that all start with
    the same preamble. */
module Syslog {
  import opened JsonLexer
  import opened JsonNumber

  const MAX_PACKET := 900

  /** Division in C truncates. */
  function TruncatedQuotient(a: int, b: nat): int
    requires b > 0
  {
    if a < 0 then -(-a / b) else a / b
  }

  /** toSyslogPriority: the last severity whose hundred the next priority has reached, between
      LOG_EMERG, which is 0, and LOG_DEBUG, which is 7. */
  function ToSyslogPriority(priority: int): (severity: int)
    ensures 0 <= severity <= 7
    ensures severity > 0 ==> 100 * severity <= priority + 1
    ensures severity < 7 ==> priority + 1 < 100 * (severity + 1)
  {
    var p := TruncatedQuotient(priority + 1, 100);
    if p < 0 then 0 else if p > 7 then 7 else p
  }

  predicate IsInt32(i: int) { -0x8000_0000 <= i < 0x8000_0000 }

  lemma {:induction false} DigitCount(n: nat, k: nat)
    requires k > 0 && n < Pow10(k)
    ensures |Digits(n)| <= k
  {
    if n >= 10 {
      assert Pow10(k) == 10 * Pow10(k - 1);
      assert k > 1 by { assert Pow10(0) == 1; }
      DigitCount(n / 10, k - 1);
    }
  }

  lemma IntTextFits(i: int)
    requires IsInt32(i)
    ensures 1 <= |IntText(i)| <= 11
  {
    assert Pow10(2) == 100 && Pow10(4) == 10000 && Pow10(6) == 1000000 && Pow10(8) == 100000000 && Pow10(10) == 10000000000;
    DigitCount(if i < 0 then -i else i, 10);
  }

  /** What "<%d>" prints. */
  function Preamble(priority: int): (r: string)
    requires IsInt32(priority)
    ensures 3 <= |r| <= 13
  {
    IntTextFits(priority);
    "<" + IntText(priority) + ">"
  }

  /** The packets of a message. */
  function Packets(preamble: string, message: string): (packets: seq<string>)
    requires |preamble| < MAX_PACKET
    decreases |message|
  {
    var room := MAX_PACKET - |preamble|;
    if message == "" then []
    else if |preamble| + |message| > MAX_PACKET then
      [preamble + message[..room]] + Packets(preamble, message[room..])
    else [preamble + message]
  }

  predicate IsPacket(preamble: string, packet: string) {
    |preamble| < |packet| <= 900 && preamble <= packet
  }

  /** The payloads of packets, one after the other. */
  function Payloads(preamble: string, packets: seq<string>): string
    requires forall i :: 0 <= i < |packets| ==> IsPacket(preamble, packets[i])
  {
    if packets == [] then ""
    else
      assert IsPacket(preamble, packets[0]);
      packets[0][|preamble|..] + Payloads(preamble, packets[1..])
  }

  /** Every packet has the preamble and at most 900 bytes, and the payloads are the message. */
  lemma {:induction false} PacketsCarryTheMessage(preamble: string, message: string)
    requires |preamble| < MAX_PACKET
    ensures forall i :: 0 <= i < |Packets(preamble, message)| ==> IsPacket(preamble, Packets(preamble, message)[i])
    ensures Payloads(preamble, Packets(preamble, message)) == message
    decreases |message|
  {
    var room := MAX_PACKET - |preamble|;
    if |preamble| + |message| > MAX_PACKET {
      PacketsCarryTheMessage(preamble, message[room..]);
      var rest := Packets(preamble, message[room..]);
      var all := [preamble + message[..room]] + rest;
      assert forall i :: 1 <= i < |all| ==> all[i] == rest[i - 1];
      assert all[1..] == rest && all[0][|preamble|..] == message[..room];
      assert message == message[..room] + message[room..];
    } else if message != "" {
      assert (preamble + message)[|preamble|..] == message;
      assert Payloads(preamble, [preamble + message]) == message + Payloads(preamble, []);
    }
  }

  predicate FullButLast(packets: seq<string>) {
    forall i :: 0 <= i < |packets| - 1 ==> |packets[i]| == 900
  }

  /** All packets but the last are full. */
  lemma {:induction false} OnlyTheLastIsShort(preamble: string, message: string)
    requires |preamble| < MAX_PACKET
    ensures FullButLast(Packets(preamble, message))
    decreases |message|
  {
    if |preamble| + |message| > MAX_PACKET {
      var room := MAX_PACKET - |preamble|;
      OnlyTheLastIsShort(preamble, message[room..]);
      assert Packets(preamble, message) == [preamble + message[..room]] + Packets(preamble, message[room..]);
    }
  }

  // ---------------------------------------------------------------- the PRI part of a packet

  /** What the PRI part in section 4.1.1 of RFC 3164 says of a packet, and the text behind it. */
  datatype Pri = Pri(value: int, content: string) | NoPri

  /** How many digits a text starts with. */
  function DigitRun(s: string): (n: nat)
    ensures n <= |s| && AllDigits(s[..n])
    ensures n < |s| ==> !IsDigit(s[n])
  {
    if s == "" || !IsDigit(s[0]) then 0 else 1 + DigitRun(s[1..])
  }

  /** An angle bracket, a number, of which a sign and digits without a superfluous zero are read,
      and the closing bracket. */
  function ReadPri(packet: string): Pri {
    if packet == "" || packet[0] != '<' then NoPri
    else
      var negative := |packet| > 1 && packet[1] == '-';
      var s := packet[if negative then 2 else 1..];
      var n := DigitRun(s);
      if n == 0 || (n > 1 && s[0] == '0') || n == |s| || s[n] != '>' then NoPri
      else Pri(if negative then -Decimal(s[..n]) else Decimal(s[..n]), s[n + 1..])
  }

  lemma {:induction false} DigitRunOf(digits: string, rest: string)
    requires AllDigits(digits) && (rest == "" || !IsDigit(rest[0]))
    ensures DigitRun(digits + rest) == |digits|
  {
    if digits == "" {
      assert digits + rest == rest;
    } else {
      assert (digits + rest)[1..] == digits[1..] + rest;
      DigitRunOf(digits[1..], rest);
    }
  }

  /** The preamble in front of any content is read as the number and the content. */
  lemma PreambleIsPri(value: int, content: string)
    requires IsInt32(value)
    ensures ReadPri(Preamble(value) + content) == Pri(value, content)
  {
    hide Digits, Decimal, DigitRun;
    var m := if value < 0 then -value else value;
    var digits := Digits(m);
    var s := digits + (">" + content);
    DecimalOfDigits(m);
    DigitRunOf(digits, ">" + content);
    SingleZero(m);
    assert Preamble(value) + content == (if value < 0 then "<-" else "<") + s;
    assert s[..|digits|] == digits && s[|digits| + 1..] == content;
  }

  lemma SingleZero(n: nat)
    ensures |Digits(n)| > 1 ==> Digits(n)[0] != '0'
  {
    DecimalOfDigits(n);
  }

  /** What the packets carry behind their PRI parts, one after the other. */
  function Contents(packets: seq<string>): string {
    if packets == [] then ""
    else (match ReadPri(packets[0]) case Pri(_, content) => content case NoPri => "") + Contents(packets[1..])
  }

  /** A reader of the PRI part finds the number in every packet, and behind it all of the message. */
  lemma {:induction false} PacketsArePri(value: int, message: string)
    requires IsInt32(value)
    ensures var packets := Packets(Preamble(value), message);
            (forall i :: 0 <= i < |packets| ==> ReadPri(packets[i]).Pri? && ReadPri(packets[i]).value == value) &&
            Contents(packets) == message
    decreases |message|
  {
    hide ReadPri, Preamble, Contents;
    var preamble := Preamble(value);
    var room := MAX_PACKET - |preamble|;
    if |preamble| + |message| > MAX_PACKET {
      PacketsArePri(value, message[room..]);
      PreambleIsPri(value, message[..room]);
      ContentsStep(preamble + message[..room], Packets(preamble, message[room..]));
      assert message == message[..room] + message[room..];
    } else if message != "" {
      PreambleIsPri(value, message);
      ContentsStep(preamble + message, []);
      NoContents();
      assert message + "" == message && [preamble + message] + [] == [preamble + message];
    } else {
      NoContents();
    }
  }

  lemma ContentsStep(packet: string, packets: seq<string>)
    requires ReadPri(packet).Pri?
    ensures Contents([packet] + packets) == ReadPri(packet).content + Contents(packets)
  {
    hide ReadPri;
    assert ([packet] + packets)[1..] == packets;
  }

  lemma NoContents()
    ensures Contents([]) == ""
  {
  }

  // ---------------------------------------------------------------- sending

  method Append(message: string, facility: int, priority: int) returns (sent: seq<string>)
    requires IsInt32(facility + ToSyslogPriority(priority))
    ensures sent == Packets(Preamble(facility + ToSyslogPriority(priority)), message)
    ensures forall i :: 0 <= i < |sent| ==> ReadPri(sent[i]).Pri? && ReadPri(sent[i]).value == facility + ToSyslogPriority(priority)
    ensures Contents(sent) == message
  {
    hide Packets, Preamble, ReadPri, Contents;
    var messageLength := |message|;
    var buf := new char[messageLength + 16](_ => ' ');
    var value := facility + ToSyslogPriority(priority);
    ghost var preamble := Preamble(value);
    PacketsArePri(value, message);
    var preambleLength := PrintPreamble(buf, value);
    MemCpy(buf, preambleLength, message);
    sent := [];
    ghost var left := message;
    while messageLength > 0
      invariant messageLength == |left| && preambleLength == |preamble| && preambleLength + messageLength < buf.Length
      invariant Holds(buf, preamble, left)
      invariant sent + Packets(preamble, left) == Packets(preamble, message)
      decreases messageLength
    {
      PacketsStep(sent, preamble, left);
      ghost var all := buf[..preambleLength + messageLength];
      if preambleLength + messageLength > MAX_PACKET {
        assert buf[..MAX_PACKET] == all[..MAX_PACKET];
        sent := sent + [buf[..MAX_PACKET]];
        messageLength := messageLength - (MAX_PACKET - preambleLength);
        Shift(buf, preambleLength, messageLength, preamble, left);
        left := left[MAX_PACKET - preambleLength..];
      } else {
        sent := sent + [buf[..preambleLength + messageLength]];
        return;
      }
    }
    NothingLeft(sent, preamble);
  }

  /** The buffer starts with the preamble and what is left of the message. */
  predicate Holds(buf: array<char>, preamble: string, left: string)
    reads buf
  {
    |preamble| + |left| <= buf.Length && buf[..|preamble| + |left|] == preamble + left
  }

  lemma PacketsStep(sent: seq<string>, preamble: string, left: string)
    requires |preamble| < MAX_PACKET && left != ""
    ensures var room := MAX_PACKET - |preamble|;
            if |preamble| + |left| > MAX_PACKET then
              (preamble + left)[..MAX_PACKET] == preamble + left[..room] &&
              sent + Packets(preamble, left) == sent + [(preamble + left)[..MAX_PACKET]] + Packets(preamble, left[room..])
            else sent + Packets(preamble, left) == sent + [preamble + left]
  {
  }

  lemma NothingLeft(sent: seq<string>, preamble: string)
    requires |preamble| < MAX_PACKET
    ensures sent + Packets(preamble, "") == sent
  {
  }

  method MemCpy(buf: array<char>, at: nat, text: string)
    requires at + |text| <= buf.Length
    modifies buf
    ensures buf[..at] == old(buf[..at]) && Holds(buf, buf[..at], text)
  {
    forall k | 0 <= k < |text| {
      buf[at + k] := text[k];
    }
    assert buf[..at + |text|] == buf[..at] + text;
  }

  /** What is left moves down to the preamble. */
  method Shift(buf: array<char>, to: nat, n: nat, ghost preamble: string, ghost left: string)
    requires to == |preamble| < MAX_PACKET && Holds(buf, preamble, left) && |preamble| + |left| == MAX_PACKET + n
    modifies buf
    ensures Holds(buf, preamble, left[MAX_PACKET - |preamble|..])
  {
    ghost var all := buf[..MAX_PACKET + n];
    assert all == preamble + left;
    MemMove(buf, to, MAX_PACKET, n);
    var rest := left[MAX_PACKET - |preamble|..];
    assert rest == all[MAX_PACKET..];
    assert forall k :: 0 <= k < |preamble| ==> buf[k] == all[k] == preamble[k];
    assert buf[|preamble|..|preamble| + n] == rest;
    assert buf[..|preamble| + n] == preamble + rest;
  }

  /** sprintf of "<%d>", with its final NUL. */
  method PrintPreamble(buf: array<char>, value: int) returns (length: nat)
    requires IsInt32(value) && buf.Length >= 16
    modifies buf
    ensures length == |Preamble(value)| < buf.Length && buf[..length] == Preamble(value)
  {
    var text := Preamble(value);
    length := |text|;
    forall k | 0 <= k < length {
      buf[k] := text[k];
    }
    buf[length] := '\0';
  }

  method MemMove(buf: array<char>, to: nat, from: nat, n: nat)
    requires to + n <= buf.Length && from + n <= buf.Length
    modifies buf
    ensures buf[to..to + n] == old(buf[from..from + n])
    ensures forall k :: 0 <= k < buf.Length && !(to <= k < to + n) ==> buf[k] == old(buf[k])
  {
    forall k | to <= k < to + n {
      buf[k] := buf[from + (k - to)];
    }
  }
}
