/** RemoteSyslogAppender: the severity of a message, and its datagrams of at most 900 bytes. */
module SyslogPackets {
  import opened Text

  const PACKET: nat := 900
  const INT_MAX: int := 0x7fff_ffff

  type Int32 = x: int | -INT_MAX - 1 <= x <= INT_MAX

  /** C's division by a positive number truncates. */
  function Quotient(a: int, b: int): int
    requires b > 0
  {
    if a >= 0 then a / b else -(-a / b)
  }

  /** LOG_EMERG is 0, LOG_DEBUG is 7. */
  function Severity(priority: int): (r: int)
    ensures 0 <= r <= 7
  {
    var q := Quotient(priority + 1, 100);
    if q < 0 then 0 else if q > 7 then 7 else q
  }

  /** Each named level, a multiple of 100, has its own severity; a priority just below a level already
      counts as that level; higher priorities never get a more urgent severity. */
  lemma SeverityBands(p: int, q: int)
    ensures forall k :: 1 <= k <= 6 ==> (Severity(p) == k <==> 100 * k - 1 <= p < 100 * k + 99)
    ensures Severity(p) == 0 <==> p < 99
    ensures Severity(p) == 7 <==> p >= 699
    ensures p <= q ==> Severity(p) <= Severity(q)
  {
  }

  /** The <PRI> part. With its NUL it fits the 16 spare bytes of the buffer. */
  function Preamble(pri: Int32): (p: string)
    ensures 3 <= |p| <= 13
  {
    NumeralLength(pri);
    "<" + SignedDigits(pri) + ">"
  }

  lemma NumeralLength(x: Int32)
    ensures 1 <= |SignedDigits(x)| <= 11
  {
    PowTen();
    var n: int := x;
    DigitsLength(if n < 0 then -n else n, 10);
  }

  lemma PowTen()
    ensures Pow(10, 10) == 10_000_000_000
  {
    assert Pow(10, 2) == 100;
    assert Pow(10, 4) == 10_000;
    PowAdd(10, 4, 4);
    PowAdd(10, 8, 2);
  }

  /** For a facility number f, the PRI is the numeral of 8f + severity, in one to three digits, and the
      severity and the facility can be read from it. */
  lemma PriForm(f: nat, priority: int)
    requires f < 24
    ensures var pri := 8 * f + Severity(priority);
      && Preamble(pri) == "<" + Digits(pri) + ">" && 1 <= |Digits(pri)| <= 3
      && Numeral(Digits(pri)) / 8 == f && Numeral(Digits(pri)) % 8 == Severity(priority)
  {
    var pri := 8 * f + Severity(priority);
    assert Pow(10, 3) == 1000 by { assert Pow(10, 2) == 100; }
    DigitsLength(pri, 3);
    NumeralOfDigits(pri);
  }

  /** The datagrams for a message. */
  function Packets(preamble: string, message: string): seq<string>
    requires |preamble| < PACKET
    decreases |message|
  {
    if message == "" then []
    else if |preamble| + |message| <= PACKET then [preamble + message]
    else
      var n := PACKET - |preamble|;
      [preamble + message[..n]] + Packets(preamble, message[n..])
  }

  function Payloads(preamble: string, packets: seq<string>): seq<string>
    requires forall i :: 0 <= i < |packets| ==> |packets[i]| >= |preamble|
  {
    seq(|packets|, i requires 0 <= i < |packets| => packets[i][|preamble|..])
  }

  /** The datagrams carry the message: each starts with the preamble and has something behind it, all but
      the last are full, and what they carry makes up the message. */
  lemma {:induction false} PacketsCarry(preamble: string, message: string)
    requires |preamble| < PACKET
    ensures var ps := Packets(preamble, message);
      && (forall i :: 0 <= i < |ps| ==> preamble < ps[i] && |ps[i]| <= PACKET)
      && (forall i :: 0 <= i < |ps| - 1 ==> |ps[i]| == PACKET)
      && Concat(Payloads(preamble, ps)) == message
      && (ps == [] <==> message == "")
    decreases |message|
  {
    hide Concat;
    var ps := Packets(preamble, message);
    if message == "" {
      ConcatPayloads(preamble, "", []);
    } else if |preamble| + |message| <= PACKET {
      ConcatPayloads(preamble, message, []);
      assert ps == [preamble + message] + [] && message + "" == message;
    } else {
      var n := PACKET - |preamble|;
      PacketsCarry(preamble, message[n..]);
      ConcatPayloads(preamble, message[..n], Packets(preamble, message[n..]));
      assert message[..n] + message[n..] == message;
    }
  }

  lemma ConcatPayloads(preamble: string, text: string, ps: seq<string>)
    requires forall i :: 0 <= i < |ps| ==> |ps[i]| >= |preamble|
    ensures Payloads(preamble, []) == [] && Concat([]) == ""
    ensures Concat(Payloads(preamble, [preamble + text] + ps)) == text + Concat(Payloads(preamble, ps))
  {
    var all := Payloads(preamble, [preamble + text] + ps);
    assert all[0] == text;
    assert all[1..] == Payloads(preamble, ps);
  }
}

module RemoteSyslogAppender {
  import opened SyslogPackets

  class RemoteSyslogAppender {
    /** A facility code, already shifted as <syslog.h> has it. */
    const facility: int
    /** The datagrams handed to the socket. */
    var sent: seq<string>

    /** The sum with a severity must not overflow. */
    ghost predicate Valid() { -INT_MAX - 1 <= facility <= INT_MAX - 7 }

    /** -1 stands for LOG_USER. */
    constructor (facility: int)
      requires -INT_MAX - 1 <= facility <= INT_MAX - 7
      ensures Valid() && sent == [] && this.facility == if facility == -1 then 8 else facility
    {
      this.facility := if facility == -1 then 8 else facility;
      sent := [];
    }

    method ToSyslogPriority(value: int) returns (result: int)
      ensures result == Severity(value)
    {
      var priority := Quotient(value + 1, 100);
      if priority < 0 {
        result := 0;
      } else if priority > 7 {
        result := 7;
      } else {
        result := [0, 1, 2, 3, 4, 5, 6, 7][priority];
      }
    }

    /** memcpy of a text into a buffer. */
    static method Store(buf: array<char>, at: nat, s: string)
      requires at + |s| <= buf.Length
      modifies buf
      ensures buf[at..at + |s|] == s && buf[..at] == old(buf[..at]) && buf[at + |s|..] == old(buf[at + |s|..])
    {
      forall k | 0 <= k < |s| { buf[at + k] := s[k]; }
    }

    /** memmove, of n bytes within the buffer. */
    static method MemMove(buf: array<char>, to: nat, from: nat, n: nat)
      requires to <= from && from + n <= buf.Length
      modifies buf
      ensures buf[to..to + n] == old(buf[from..from + n])
      ensures buf[..to] == old(buf[..to]) && buf[to + n..] == old(buf[to + n..])
    {
      forall k | 0 <= k < n { buf[to + k] := buf[from + k]; }
    }

    /** The two extra bytes of sprintf and every byte moved are inside the buffer of message length + 16. */
    method Append(message: string, priority: int)
      requires Valid()
      modifies this`sent
      ensures sent == old(sent) + Packets(Preamble(facility + Severity(priority)), message)
    {
      hide Packets, Preamble;
      var messageLength := |message|;
      var buf := new char[messageLength + 16];
      var severity := ToSyslogPriority(priority);
      var preamble := Preamble(facility + severity);
      Store(buf, 0, preamble + ['\0']);
      var preambleLength := |preamble|;
      assert buf[..preambleLength] == buf[0..preambleLength + 1][..preambleLength] == preamble;
      Store(buf, preambleLength, message);
      ghost var rest := message;
      while messageLength > 0
        invariant messageLength == |rest| && preambleLength + messageLength <= buf.Length
        invariant buf[..preambleLength] == preamble
        invariant buf[preambleLength..preambleLength + messageLength] == rest
        invariant sent + Packets(preamble, rest) == old(sent) + Packets(preamble, message)
        decreases messageLength
      {
        PacketsStep(preamble, rest, buf[..preambleLength + messageLength], sent);
        if preambleLength + messageLength > 900 {
          assert buf[..preambleLength + messageLength][..900] == buf[..900];
          sent := sent + [buf[..900]];
          messageLength := messageLength - (900 - preambleLength);
          rest := rest[900 - preambleLength..];
          assert buf[900..900 + messageLength] == rest;
          MemMove(buf, preambleLength, 900, messageLength);
        } else {
          sent := sent + [buf[..preambleLength + messageLength]];
          return;
        }
      }
      NoPackets(preamble, sent);
    }
  }

  lemma PacketsStep(preamble: string, rest: string, buf: string, sent: seq<string>)
    requires |preamble| < PACKET && rest != "" && buf == preamble + rest
    ensures sent + Packets(preamble, rest) ==
      if |buf| > PACKET then sent + [buf[..PACKET]] + Packets(preamble, rest[PACKET - |preamble|..])
      else sent + [buf]
  {
    if |buf| > PACKET { assert buf[..PACKET] == preamble + rest[..PACKET - |preamble|]; }
  }

  lemma NoPackets(preamble: string, sent: seq<string>)
    requires |preamble| < PACKET
    ensures sent + Packets(preamble, "") == sent
  {
  }
}
