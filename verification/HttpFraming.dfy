/**
 Reading one HTTP request off a connection (`read_http_request`): the loop finds
 the end of the header block, takes a body length from it, and stops when that
 many bytes have arrived.  What the header block says about the length is any
 function of its bytes.
 */
module HttpFraming {
  import opened Options
  import opened Utf8

  type LengthOf = Bytes -> nat

  const MAX_REQUEST_BYTES: nat := 0x10_0000
  const BUFFER: nat := 8192
  const USIZE: nat := 0x1_0000_0000_0000_0000

  /** What one turn of the loop meets: bytes, the end of the stream, an error, or the deadline. */
  datatype Event = Chunk(bytes: Bytes) | Closed | Broken | Late

  predicate BlankLineAt(s: Bytes, p: nat) {
    p + 4 <= |s| && s[p] == '\r' && s[p + 1] == '\n' && s[p + 2] == '\r' && s[p + 3] == '\n'
  }

  /** The header block of `s` ends at h. */
  ghost predicate HeaderEnds(s: Bytes, h: nat) {
    h >= 4 && BlankLineAt(s, h - 4) && forall k :: 0 <= k < h - 4 ==> !BlankLineAt(s, k)
  }

  ghost predicate NoHeaderEnd(s: Bytes) {
    forall k: nat :: !BlankLineAt(s, k)
  }

  /** `data.windows(4).position(..)` */
  method FindHeaderEnd(s: Bytes) returns (h: Option<nat>)
    ensures h.Some? ==> HeaderEnds(s, h.value)
    ensures h.None? ==> NoHeaderEnd(s)
  {
    var p := 0;
    while p + 4 <= |s|
      invariant forall k :: 0 <= k < p ==> !BlankLineAt(s, k)
    {
      if BlankLineAt(s, p) {
        return Some(p + 4);
      }
      p := p + 1;
    }
    return None;
  }

  /** These four bytes are CR LF CR LF. */
  predicate CrLfTwice(s: Bytes, k: nat) {
    k + 4 <= |s| && s[k..k + 4] == "\r\n\r\n"
  }

  lemma BlankLineExactly(s: Bytes, k: nat)
    ensures BlankLineAt(s, k) <==> CrLfTwice(s, k)
  {
    if k + 4 <= |s| {
      var w := s[k..k + 4];
      assert w[0] == s[k] && w[1] == s[k + 1] && w[2] == s[k + 2] && w[3] == s[k + 3];
    }
  }

  /** That is: the header block ends with the first CR LF CR LF. */
  lemma HeaderEndsExactly(s: Bytes, h: nat)
    ensures HeaderEnds(s, h) <==> h >= 4 && CrLfTwice(s, h - 4) && forall k: nat :: k < h - 4 ==> !CrLfTwice(s, k)
  {
    forall k: nat
      ensures BlankLineAt(s, k) <==> CrLfTwice(s, k)
    {
      BlankLineExactly(s, k);
    }
  }

  /** More bytes never move the end of the header block. */
  lemma HeaderEndStays(s: Bytes, t: Bytes, h: nat)
    requires s <= t
    ensures HeaderEnds(s, h) ==> HeaderEnds(t, h) && h <= |s| && s[..h] == t[..h]
    ensures HeaderEnds(t, h) && h <= |s| ==> HeaderEnds(s, h)
  {
    assert forall i :: 0 <= i < |s| ==> s[i] == t[i];
    assert forall k: nat :: BlankLineAt(s, k) <==> k + 4 <= |s| && BlankLineAt(t, k);
  }

  lemma HeaderEndUnique(s: Bytes, a: nat, b: nat)
    requires HeaderEnds(s, a) && HeaderEnds(s, b)
    ensures a == b
  {
  }

  /** `h + want` in the source's integers. */
  function Needed(h: nat, want: nat): nat {
    (h + want) % USIZE
  }

  /** The sum wraps at 2^64, so a length close to that makes every request complete at once. */
  lemma NeededExactly(h: nat, want: nat)
    requires h < 18_446_744_073_709_551_616 && want < 18_446_744_073_709_551_616
    ensures Needed(h, want) == if h + want < 18_446_744_073_709_551_616 then h + want else h + want - 18_446_744_073_709_551_616
  {
  }

  function Received(events: seq<Event>): Bytes {
    if events == [] then []
    else
      var last := events[|events| - 1];
      Received(events[..|events| - 1]) + (if last.Chunk? then last.bytes else [])
  }

  lemma ReceivedAppend(events: seq<Event>, i: nat)
    requires i < |events|
    ensures Received(events[..i + 1])
            == Received(events[..i]) + (if events[i].Chunk? then events[i].bytes else [])
  {
    assert events[..i + 1][..i] == events[..i];
  }

  lemma {:induction false} ReceivedPrefix(events: seq<Event>, i: nat)
    requires i <= |events|
    ensures Received(events[..i]) <= Received(events)
    decreases |events| - i
  {
    if i == |events| {
      assert events[..i] == events;
    } else {
      ReceivedPrefix(events, i + 1);
      ReceivedAppend(events, i);
    }
  }

  /** Enough has arrived: the header block is complete and so is the body it announces. */
  ghost predicate Complete(data: Bytes, lengthOf: LengthOf) {
    exists h: nat :: HeaderEnds(data, h) && |data| >= Needed(h, lengthOf(data[..h]))
  }

  /** This event brought bytes, and what had arrived with it was no complete request. */
  ghost predicate Unfinished(events: seq<Event>, j: nat, lengthOf: LengthOf)
    requires j < |events|
  {
    events[j].Chunk? && !Complete(Received(events[..j + 1]), lengthOf)
  }

  /**
   The loop, on any sequence of events.  A request is handed to the parser only
   if neither the deadline nor an error nor the size cap came first; it is then
   all that arrived up to the first moment at which it was complete, or up to the
   end of the stream.
   */
  method ReadRequest(events: seq<Event>, lengthOf: LengthOf) returns (data: Option<Bytes>, used: nat)
    ensures used <= |events|
    ensures data.Some? ==> data.value == Received(events[..used])
    ensures forall j :: 0 <= j < used - 1 ==> Unfinished(events, j, lengthOf)
    ensures data.Some? ==> |data.value| <= 1_048_576
    ensures data.Some? ==>
              || (used > 0 && events[used - 1].Chunk? && Complete(data.value, lengthOf))
              || (used > 0 && events[used - 1].Closed?)
              || (used == |events| && (used > 0 ==> events[used - 1].Chunk?))
    ensures data.None? ==>
              used > 0 && (events[used - 1].Late? || events[used - 1].Broken?
                           || |Received(events[..used])| > 1_048_576)
  {
    var buffer: Bytes := [];
    var headerEnd: Option<nat> := None;
    var want: nat := 0;
    used := 0;
    while used < |events|
      invariant 0 <= used <= |events|
      invariant buffer == Received(events[..used]) && |buffer| <= MAX_REQUEST_BYTES
      invariant forall j :: 0 <= j < used ==> Unfinished(events, j, lengthOf)
      invariant Tracks(buffer, lengthOf, headerEnd, want)
    {
      ReceivedAppend(events, used);
      var event := events[used];
      used := used + 1;
      match event
      case Late => return None, used;
      case Broken => return None, used;
      case Closed => return Some(buffer), used;
      case Chunk(bytes) =>
        var longer := buffer + bytes;
        if |longer| > MAX_REQUEST_BYTES {
          return None, used;
        }
        var done;
        headerEnd, want, done := Feed(buffer, bytes, lengthOf, headerEnd, want);
        buffer := longer;
        if done {
          return Some(buffer), used;
        }
        assert Unfinished(events, used - 1, lengthOf);
    }
    assert used > 0 ==> Unfinished(events, used - 1, lengthOf);
    data := Some(buffer);
  }

  /** The loop's variables agree with the bytes so far. */
  ghost predicate Tracks(data: Bytes, lengthOf: LengthOf, headerEnd: Option<nat>, want: nat) {
    && (headerEnd.None? ==> NoHeaderEnd(data))
    && (headerEnd.Some? ==> HeaderEnds(data, headerEnd.value) && want == lengthOf(data[..headerEnd.value]))
  }

  /** One turn with bytes: look for the end of the header block once, then only count. */
  method Feed(before: Bytes, bytes: Bytes, lengthOf: LengthOf, headerEnd: Option<nat>, want: nat)
    returns (headerEnd': Option<nat>, want': nat, done: bool)
    requires Tracks(before, lengthOf, headerEnd, want)
    ensures Tracks(before + bytes, lengthOf, headerEnd', want')
    ensures done <==> Complete(before + bytes, lengthOf)
  {
    var buffer := before + bytes;
    headerEnd', want' := headerEnd, want;
    if headerEnd.None? {
      headerEnd' := FindHeaderEnd(buffer);
      if headerEnd'.Some? {
        want' := lengthOf(buffer[..headerEnd'.value]);
      }
    } else {
      HeaderEndStays(before, buffer, headerEnd.value);
    }
    done := headerEnd'.Some? && |buffer| >= Needed(headerEnd'.value, want');
    if !done {
      NotComplete(buffer, lengthOf, headerEnd');
    }
  }

  lemma NotComplete(data: Bytes, lengthOf: LengthOf, headerEnd: Option<nat>)
    requires headerEnd.None? ==> NoHeaderEnd(data)
    requires headerEnd.Some? ==>
               HeaderEnds(data, headerEnd.value) && |data| < Needed(headerEnd.value, lengthOf(data[..headerEnd.value]))
    ensures !Complete(data, lengthOf)
  {
    forall h: nat | HeaderEnds(data, h)
      ensures |data| < Needed(h, lengthOf(data[..h]))
    {
      if headerEnd.Some? {
        HeaderEndUnique(data, h, headerEnd.value);
      }
    }
  }

  // ----- However the stream is split

  /** The stream is cut into reads of one buffer at most. */
  predicate Splits(events: seq<Event>, all: Bytes) {
    && Received(events) == all
    && (forall i :: 0 <= i < |events| ==> events[i].Chunk? && 0 < |events[i].bytes| <= BUFFER)
  }

  /** The message at the front of the stream. */
  ghost predicate Message(all: Bytes, lengthOf: LengthOf, h: nat, want: nat) {
    HeaderEnds(all, h) && want == lengthOf(all[..h]) && h + want < USIZE
  }

  /** A part of the stream is complete exactly when it holds the message. */
  lemma CompleteExactlyWhen(part: Bytes, all: Bytes, lengthOf: LengthOf, h: nat, want: nat)
    requires part <= all && Message(all, lengthOf, h, want)
    ensures Complete(part, lengthOf) <==> |part| >= h + want
  {
    assert Needed(h, want) == h + want;
    if |part| >= h {
      HeaderEndStays(part, all, h);
      assert part[..h] == all[..h];
    }
    if Complete(part, lengthOf) {
      var k: nat :| HeaderEnds(part, k) && |part| >= Needed(k, lengthOf(part[..k]));
      HeaderEndStays(part, all, k);
      HeaderEndUnique(all, h, k);
    }
  }

  /**
   For every way of splitting a stream under the size cap into reads before the
   deadline: the bytes handed to the parser are a prefix of the stream; a stream
   that is exactly one message is handed over whole, so its parse does not depend
   on the splitting; and when more follows, header block and body are the
   message's own and the overshoot is less than one buffer.
   */
  method EverySplitting(events: seq<Event>, all: Bytes, lengthOf: LengthOf, h: nat, want: nat) returns (data: Bytes)
    requires Splits(events, all) && |all| <= 1_048_576 && Message(all, lengthOf, h, want)
    requires |all| >= h + want
    ensures data <= all && h + want <= |data| < h + want + 8192
    ensures |all| == h + want ==> data == all
    ensures HeaderEnds(data, h) && data[..h] == all[..h] && data[h..h + want] == all[h..h + want]
  {
    var r, used := ReadRequest(events, lengthOf);
    assert used > 1 ==> Unfinished(events, used - 2, lengthOf);
    LastRead(events, all, lengthOf, h, want, used);
    data := r.value;
    HeaderEndStays(data, all, h);
    assert |all| == h + want ==> data == all[..|data|] == all;
  }

  /** What the events up to the last one read amount to. */
  lemma LastRead(events: seq<Event>, all: Bytes, lengthOf: LengthOf, h: nat, want: nat, used: nat)
    requires Splits(events, all) && Message(all, lengthOf, h, want) && |all| >= h + want && used <= |events|
    requires used > 1 ==> !Complete(Received(events[..used - 1]), lengthOf)
    ensures Received(events[..used]) <= all
    ensures Complete(Received(events[..used]), lengthOf) <==> |Received(events[..used])| >= h + want
    ensures used == |events| ==> Received(events[..used]) == all
    ensures used > 0 ==> |Received(events[..used])| < h + want + BUFFER
  {
    ReceivedPrefix(events, used);
    assert events[..|events|] == events;
    CompleteExactlyWhen(Received(events[..used]), all, lengthOf, h, want);
    if used > 0 {
      ReceivedAppend(events, used - 1);
      ReceivedPrefix(events, used - 1);
      CompleteExactlyWhen(Received(events[..used - 1]), all, lengthOf, h, want);
      assert used == 1 ==> events[..used - 1] == [];
    }
  }
}
