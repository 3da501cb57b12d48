/** What the main-loop receiver does with a whole byte stream, decoded in one go: the messages its handlers get and
    its counters, from the bytes alone. */
module LoopBatch {
  import opened Bitwise
  import opened Crc
  import opened Frame
  import opened Protocol
  import A = Assembler

  /** The messages, in order; how many frames came to their trailer; and how many failed a test. */
  datatype Seen = Seen(messages: seq<Msg>, received: nat, crcErrors: nat)

  /** Skip to a sync byte. Take a header; go on behind it if its reserved word is not zero, its CRC-64 is wrong or its
      length too long. Take the rest of the frame, and go on behind it. */
  function Survey(s: seq<byte>): Seen
    decreases |s|
  {
    if s == [] then Seen([], 0, 0)
    else if s[0] != 0xAA then Survey(s[1..])
    else if |s| < 16 then Seen([], 0, 0)
    else
      var len: nat := s[2] as int + 256 * s[3] as int;
      if s[4..8] != [0, 0, 0, 0] || Checksum(Crc64, s[..8]) != Message(s[8..16]) || len > 4092 then
        var r := Survey(s[16..]);
        r.(crcErrors := r.crcErrors + 1)
      else if |s| < 20 + len then Seen([], 0, 0)
      else
        var r := Survey(s[20 + len..]);
        if len > 0 && Checksum(Crc32, s[16..16 + len]) != Message(s[16 + len..20 + len])
        then r.(received := r.received + 1, crcErrors := r.crcErrors + 1)
        else Seen([Msg(s[1], s[16..16 + len])] + r.messages, r.received + 1, r.crcErrors)
  }

  /** A log says the same as a survey. */
  predicate Tells(log: seq<A.Outcome>, seen: Seen) {
    && Messages(log) == seen.messages && A.Dispatches(log) == |seen.messages|
    && A.Dispatches(log) + PayloadRejects(log) == seen.received
    && |log| == A.Dispatches(log) + seen.crcErrors
  }

  lemma TellsNothing()
    ensures Tells([], Seen([], 0, 0))
  {
  }

  lemma TellsMore(o: A.Outcome, log: seq<A.Outcome>, seen: Seen)
    requires Tells(log, seen)
    ensures o.HeaderRejected? || o.LengthRejected? ==> Tells([o] + log, seen.(crcErrors := seen.crcErrors + 1))
    ensures o.PayloadRejected? ==>
              Tells([o] + log, seen.(received := seen.received + 1, crcErrors := seen.crcErrors + 1))
    ensures o.Dispatched? ==>
              Tells([o] + log, seen.(messages := [o.m] + seen.messages, received := seen.received + 1))
  {
    assert ([o] + log)[1..] == log;
    if !o.Dispatched? { assert [] + Messages(log) == Messages(log); }
  }

  /** The receiver's tests on a header, from its bytes. */
  lemma HeaderVerdict(s: seq<byte>)
    requires |s| >= 16 && s[0] == 0xAA
    ensures LengthField(s[..16]) == s[2] as int + 256 * s[3] as int
    ensures var verdict := A.EndOfHeader(s[..16]).1;
            if s[4..8] != [0, 0, 0, 0] || Checksum(Crc64, s[..8]) != Message(s[8..16]) then verdict == A.HeaderRejected
            else if LengthField(s[..16]) > 4092 then verdict == A.LengthRejected
            else verdict == A.Quiet
  {
    hide Checksum, Message;
    var h := s[..16];
    assert h[4..8] == s[4..8] && h[..8] == s[..8] && h[8..] == s[8..16];
  }

  lemma {:induction false} ParseTells(s: seq<byte>)
    ensures Tells(A.Parse(s).0, Survey(s))
    decreases |s|
  {
    hide Checksum, Message, Tells, A.EndOfHeader;
    if s == [] {
      TellsNothing();
    } else if s[0] != SYNC {
      ParseTells(s[1..]);
    } else if |s| < HDR_SIZE {
      TellsNothing();
    } else {
      HeaderVerdict(s);
      var h := s[..16];
      var len := LengthField(h);
      assert h[1] == s[1];
      if A.EndOfHeader(h).1 != A.Quiet {
        ParseTells(s[16..]);
        TellsMore(A.EndOfHeader(h).1, A.Parse(s[16..]).0, Survey(s[16..]));
      } else if |s| < 20 + len {
        TellsNothing();
      } else {
        ParseTells(s[20 + len..]);
        TellsMore(A.EndOfFrame(h, s[16..16 + len], s[16 + len..20 + len]),
                  A.Parse(s[20 + len..]).0, Survey(s[20 + len..]));
      }
    }
  }

  /** After any byte stream from initialisation: the handlers have got exactly the messages of the survey, in order;
      and, modulo 2^32, frames_received, frames_crc_error and frames_dispatched are its numbers, and frames_sync_error
      is zero. */
  lemma LoopDecoded(s: seq<byte>)
    ensures var log, seen := A.FeedAll(A.Idle, s).1, Survey(s);
            && Messages(log) == seen.messages
            && CountAll(Counters(0, 0, 0, 0), log)
               == Counters(Word(seen.received), Word(seen.crcErrors), 0, Word(|seen.messages|))
  {
    hide A.Parse, A.FeedAll, Survey, Word, CountAll;
    A.Incremental(A.Idle, s);
    assert A.Pending(A.Idle) + s == s;
    ParseTells(s);
    CountersExactly(s);
  }
}
