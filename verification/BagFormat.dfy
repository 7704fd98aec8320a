/** The bag file format: what the recorder writes, what the player reads back, and why the second
    undoes the first, on whole files and on truncated ones. */
module BagFormat {
  import opened Bytes
  import opened BoundedFifo

  type U32 = x: int | 0 <= x < 0x1_0000_0000
  type U64 = x: int | 0 <= x < 0x1_0000_0000_0000_0000

  datatype Message = Message(timestamp: U64, topic: seq<Byte>, data: seq<Byte>)

  datatype Topic = Topic(name: seq<Byte>, kind: seq<Byte>, schema: seq<Byte>)

  // ---------------------------------------------------------------- writing

  /** A 32-bit length, then that many bytes. */
  function Block(data: seq<Byte>): seq<Byte> {
    ToLE(|data| % TWO32, 4) + Cut(data)
  }

  function EncodeMessage(m: Message): seq<Byte> {
    ToLE(m.timestamp, 8) + Block(m.topic) + Block(m.data)
  }

  function EncodeTopic(t: Topic): seq<Byte> {
    Block(t.name) + Block(t.kind) + Block(t.schema)
  }

  ghost function EncodeMessages(ms: seq<Message>): seq<Byte> {
    if |ms| == 0 then [] else EncodeMessage(ms[0]) + EncodeMessages(ms[1..])
  }

  ghost function EncodeTopics(ts: seq<Topic>): seq<Byte> {
    if |ts| == 0 then [] else EncodeTopic(ts[0]) + EncodeTopics(ts[1..])
  }

  // ---------------------------------------------------------------- reading

  /** The next block of a byte stream and what follows it; None if the stream ends first. */
  function ReadBlock(bs: seq<Byte>): (r: Option<(seq<Byte>, seq<Byte>)>)
    ensures r.Some? ==> |r.value.1| + |r.value.0| + 4 == |bs|
  {
    if |bs| < 4 then None
    else
      var end := 4 + FromLE(bs[..4]);
      if |bs| < end then None else Some((bs[4..end], bs[end..]))
  }

  function ReadMessage(bs: seq<Byte>): (r: Option<(Message, seq<Byte>)>)
    ensures r.Some? ==> |r.value.1| + 16 + |r.value.0.topic| + |r.value.0.data| == |bs|
  {
    if |bs| < 8 then None
    else
      Spans();
      match ReadBlock(bs[8..])
      case None => None
      case Some((topic, rest)) =>
        match ReadBlock(rest)
        case None => None
        case Some((data, rest')) => Some((Message(FromLE(bs[..8]), topic, data), rest'))
  }

  function ReadTopic(bs: seq<Byte>): (r: Option<(Topic, seq<Byte>)>)
    ensures r.Some? ==> |r.value.1| + 12 <= |bs|
  {
    match ReadBlock(bs)
    case None => None
    case Some((name, rest)) =>
      match ReadBlock(rest)
      case None => None
      case Some((kind, rest')) =>
        match ReadBlock(rest')
        case None => None
        case Some((schema, rest'')) => Some((Topic(name, kind, schema), rest''))
  }

  /** What playback of a byte stream delivers: messages until one does not fit. */
  ghost function Playback(bs: seq<Byte>): seq<Message>
    decreases |bs|
  {
    match ReadMessage(bs)
    case None => []
    case Some((m, rest)) => [m] + Playback(rest)
  }

  /** `count` topics and the stream after them; None if the stream ends first.  Every topic takes at
      least its three lengths. */
  ghost function ReadTopics(bs: seq<Byte>, count: nat): (r: Option<(seq<Topic>, seq<Byte>)>)
    ensures r.Some? ==> |r.value.0| == count && |r.value.1| + 12 * count <= |bs|
  {
    if count == 0 then Some(([], bs))
    else
      match ReadTopic(bs)
      case None => None
      case Some((t, rest)) =>
        match ReadTopics(rest, count - 1)
        case None => None
        case Some((ts, rest')) => Some(([t] + ts, rest'))
  }

  // ---------------------------------------------------------------- what the file keeps

  /** A message as the file holds it: byte strings are cut only by their 32-bit lengths. */
  function Stored(m: Message): Message {
    Message(m.timestamp, Cut(m.topic), Cut(m.data))
  }

  function StoredTopic(t: Topic): Topic {
    Topic(Cut(t.name), Cut(t.kind), Cut(t.schema))
  }

  /** The lengths of a message, or of a topic, fit their 32-bit fields. */
  ghost predicate Fits(m: Message) {
    |m.topic| < TWO32 && |m.data| < TWO32
  }

  ghost predicate TopicFits(t: Topic) {
    |t.name| < TWO32 && |t.kind| < TWO32 && |t.schema| < TWO32
  }

  ghost function AllStored(ms: seq<Message>): (r: seq<Message>)
    ensures |r| == |ms| && forall k | 0 <= k < |ms| :: r[k] == Stored(ms[k])
  {
    if |ms| == 0 then [] else [Stored(ms[0])] + AllStored(ms[1..])
  }

  ghost function AllTopicsStored(ts: seq<Topic>): (r: seq<Topic>)
    ensures |r| == |ts| && forall k | 0 <= k < |ts| :: r[k] == StoredTopic(ts[k])
  {
    if |ts| == 0 then [] else [StoredTopic(ts[0])] + AllTopicsStored(ts[1..])
  }

  lemma AllStoredIsWhole(ms: seq<Message>)
    ensures AllStored(ms) == ms <==> forall k | 0 <= k < |ms| :: Fits(ms[k])
  {
    forall k | 0 <= k < |ms| ensures Stored(ms[k]) == ms[k] <==> Fits(ms[k]) {
      CutIsWhole(ms[k].topic);
      CutIsWhole(ms[k].data);
    }
  }

  lemma AllTopicsStoredIsWhole(ts: seq<Topic>)
    ensures AllTopicsStored(ts) == ts <==> forall k | 0 <= k < |ts| :: TopicFits(ts[k])
  {
    forall k | 0 <= k < |ts| ensures StoredTopic(ts[k]) == ts[k] <==> TopicFits(ts[k]) {
      CutIsWhole(ts[k].name);
      CutIsWhole(ts[k].kind);
      CutIsWhole(ts[k].schema);
    }
  }

  // ---------------------------------------------------------------- reading undoes writing

  ghost function Take<T>(bs: seq<T>, m: nat): seq<T> {
    if m <= |bs| then bs[..m] else bs
  }

  lemma Split(a: seq<Byte>, b: seq<Byte>)
    ensures (a + b)[..|a|] == a && (a + b)[|a|..] == b
  {
  }

  lemma Associates(a: seq<Byte>, b: seq<Byte>, c: seq<Byte>)
    ensures a + b + c == a + (b + c)
  {
  }

  lemma TakeOfAppend(a: seq<Byte>, b: seq<Byte>, m: nat)
    ensures Take(a + b, m) == if m < |a| then a[..m] else a + Take(b, m - |a|)
  {
  }

  /** A block at the front of a stream is read back, leaving the rest. */
  lemma ReadBlockBack(data: seq<Byte>, rest: seq<Byte>)
    ensures ReadBlock(Block(data) + rest) == Some((Cut(data), rest))
  {
    var prefix, tail := ToLE(|data| % TWO32, 4), Cut(data) + rest;
    assert Block(data) + rest == prefix + tail;
    Spans();
    LERoundTrip(|data| % TWO32, 4);
    Split(prefix, tail);
    Split(Cut(data), rest);
  }

  /** A block that is cut off is not read at all. */
  lemma CutBlockIsRefused(data: seq<Byte>, m: nat)
    requires m < |Block(data)|
    ensures ReadBlock(Block(data)[..m]) == None
  {
    Spans();
    LERoundTrip(|data| % TWO32, 4);
    if m >= 4 {
      assert Block(data)[..m][..4] == ToLE(|data| % TWO32, 4);
    }
  }

  lemma ReadMessageBack(msg: Message, rest: seq<Byte>)
    ensures ReadMessage(EncodeMessage(msg) + rest) == Some((Stored(msg), rest))
  {
    var stamp, tail := ToLE(msg.timestamp, 8), Block(msg.data) + rest;
    assert EncodeMessage(msg) + rest == stamp + (Block(msg.topic) + tail);
    Spans();
    LERoundTrip(msg.timestamp, 8);
    Split(stamp, Block(msg.topic) + tail);
    ReadBlockBack(msg.topic, tail);
    ReadBlockBack(msg.data, rest);
  }

  lemma CutOfThree(a: seq<Byte>, b: seq<Byte>, c: seq<Byte>, m: nat)
    requires |a| <= m <= |a + b + c|
    ensures (a + b + c)[..m][|a|..] == if m < |a| + |b| then b[..m - |a|] else b + c[..m - |a| - |b|]
  {
  }

  lemma CutMessageIsRefused(msg: Message, m: nat)
    requires m < |EncodeMessage(msg)|
    ensures ReadMessage(EncodeMessage(msg)[..m]) == None
  {
    var stamp, topic, data := ToLE(msg.timestamp, 8), Block(msg.topic), Block(msg.data);
    var bs := EncodeMessage(msg)[..m];
    Associates(stamp, topic, data);
    if m >= 8 + |topic| {
      CutOfThree(stamp, topic, data, m);
      ReadBlockBack(msg.topic, data[..m - 8 - |topic|]);
      CutBlockIsRefused(msg.data, m - 8 - |topic|);
    } else if m >= 8 {
      CutOfThree(stamp, topic, data, m);
      CutBlockIsRefused(msg.topic, m - 8);
    }
  }

  lemma ReadTopicBack(t: Topic, rest: seq<Byte>)
    ensures ReadTopic(EncodeTopic(t) + rest) == Some((StoredTopic(t), rest))
  {
    var tail := Block(t.schema) + rest;
    assert EncodeTopic(t) + rest == Block(t.name) + (Block(t.kind) + tail);
    ReadBlockBack(t.name, Block(t.kind) + tail);
    ReadBlockBack(t.kind, tail);
    ReadBlockBack(t.schema, rest);
  }

  lemma ReadOneMoreTopic(t: Topic, tail: seq<Byte>, count: nat)
    requires ReadTopics(tail, count).Some?
    ensures var Some((ts, rest)) := ReadTopics(tail, count);
      ReadTopics(EncodeTopic(t) + tail, count + 1) == Some(([StoredTopic(t)] + ts, rest))
  {
    ReadTopicBack(t, tail);
  }

  lemma {:induction false} ReadTopicsBack(ts: seq<Topic>, rest: seq<Byte>)
    ensures ReadTopics(EncodeTopics(ts) + rest, |ts|) == Some((AllTopicsStored(ts), rest))
  {
    if |ts| == 0 {
      assert EncodeTopics(ts) + rest == rest;
    } else {
      var head, later := EncodeTopic(ts[0]), EncodeTopics(ts[1..]);
      ReadTopicsBack(ts[1..], rest);
      ReadOneMoreTopic(ts[0], later + rest, |ts| - 1);
      Associates(head, later, rest);
    }
  }

  /** What reading `count` topics leaves of a stream, if they are there. */
  ghost function Unread(bs: seq<Byte>, count: nat): Option<nat> {
    match ReadTopics(bs, count)
    case None => None
    case Some((_, rest)) => Some(|rest|)
  }

  lemma SkipTopic(t: Topic, tail: seq<Byte>, count: nat)
    requires count > 0
    ensures Unread(EncodeTopic(t) + tail, count) == Unread(tail, count - 1)
  {
    ReadTopicBack(t, tail);
  }

  /** Asked for more topics than were written, a reader that finds them takes the surplus from what
      follows the topics. */
  lemma {:induction false} SurplusComesFromBody(ts: seq<Topic>, body: seq<Byte>, count: nat)
    requires count >= |ts|
    ensures var left := Unread(EncodeTopics(ts) + body, count);
      left.Some? ==> left.value + 12 * (count - |ts|) <= |body|
  {
    if |ts| == 0 {
      assert EncodeTopics(ts) + body == body;
    } else {
      SurplusComesFromBody(ts[1..], body, count - 1);
      Associates(EncodeTopic(ts[0]), EncodeTopics(ts[1..]), body);
      SkipTopic(ts[0], EncodeTopics(ts[1..]) + body, count);
    }
  }

  lemma PlayOneMore(m: Message, tail: seq<Byte>)
    ensures Playback(EncodeMessage(m) + tail) == [Stored(m)] + Playback(tail)
  {
    ReadMessageBack(m, tail);
  }

  /** How many of the messages are complete within the first `m` bytes. */
  ghost function Complete(ms: seq<Message>, m: nat): (k: nat)
    ensures k <= |ms|
  {
    if |ms| == 0 || m < |EncodeMessage(ms[0])| then 0
    else 1 + Complete(ms[1..], m - |EncodeMessage(ms[0])|)
  }

  /** `Complete` counts the longest prefix that fits. */
  lemma {:induction false} CompleteIsLongest(ms: seq<Message>, m: nat, k: nat)
    requires k <= |ms|
    ensures |EncodeMessages(ms[..k])| <= m <==> k <= Complete(ms, m)
  {
    if k > 0 {
      assert ms[..k][1..] == ms[1..][..k - 1];
      if m >= |EncodeMessage(ms[0])| {
        CompleteIsLongest(ms[1..], m - |EncodeMessage(ms[0])|, k - 1);
      }
    }
  }

  lemma StoredPrefix(ms: seq<Message>, k: nat)
    requires k < |ms|
    ensures AllStored(ms[..k + 1]) == [Stored(ms[0])] + AllStored(ms[1..][..k])
  {
    assert ms[..k + 1][1..] == ms[1..][..k];
  }

  lemma CutMessagePlaysNothing(msg: Message, m: nat)
    requires m < |EncodeMessage(msg)|
    ensures Playback(EncodeMessage(msg)[..m]) == []
  {
    CutMessageIsRefused(msg, m);
  }

  /** A first message that is complete, and then what is left of the later ones. */
  lemma TakeFirstMessage(ms: seq<Message>, m: nat, left: nat)
    requires |ms| > 0 && m == |EncodeMessage(ms[0])| + left
    ensures Take(EncodeMessages(ms), m) == EncodeMessage(ms[0]) + Take(EncodeMessages(ms[1..]), left)
  {
    TakeOfAppend(EncodeMessage(ms[0]), EncodeMessages(ms[1..]), m);
  }

  lemma FirstMessageComplete(ms: seq<Message>, m: nat, left: nat)
    requires |ms| > 0 && m == |EncodeMessage(ms[0])| + left
    ensures AllStored(ms[..Complete(ms, m)]) == [Stored(ms[0])] + AllStored(ms[1..][..Complete(ms[1..], left)])
  {
    assert left == m - |EncodeMessage(ms[0])|;
    StoredPrefix(ms, Complete(ms[1..], left));
  }

  /** Playing any truncation of recorded messages delivers exactly the messages that are complete in
      it: each unaltered, in order, and never a partial or invented one. */
  lemma {:induction false} TruncatedPlayback(ms: seq<Message>, m: nat)
    ensures Playback(Take(EncodeMessages(ms), m)) == AllStored(ms[..Complete(ms, m)])
  {
    if |ms| > 0 && m < |EncodeMessage(ms[0])| {
      TakeOfAppend(EncodeMessage(ms[0]), EncodeMessages(ms[1..]), m);
      CutMessagePlaysNothing(ms[0], m);
    } else if |ms| > 0 {
      var left := m - |EncodeMessage(ms[0])|;
      TruncatedPlayback(ms[1..], left);
      TakeFirstMessage(ms, m, left);
      PlayOneMore(ms[0], Take(EncodeMessages(ms[1..]), left));
      FirstMessageComplete(ms, m, left);
    }
  }

  lemma {:induction false} CompleteAll(ms: seq<Message>, m: nat)
    requires m >= |EncodeMessages(ms)|
    ensures Complete(ms, m) == |ms|
  {
    CompleteIsLongest(ms, m, |ms|);
    assert ms[..|ms|] == ms;
  }

  /** Playing everything delivers everything. */
  lemma WholePlayback(ms: seq<Message>)
    ensures Playback(EncodeMessages(ms)) == AllStored(ms)
  {
    var all := EncodeMessages(ms);
    TruncatedPlayback(ms, |all|);
    CompleteAll(ms, |all|);
    assert ms[..|ms|] == ms && Take(all, |all|) == all;
  }

  lemma TailOfAppend<T>(s: seq<T>, x: T)
    requires |s| > 0
    ensures (s + [x])[0] == s[0] && (s + [x])[1..] == s[1..] + [x]
  {
  }

  lemma {:induction false} EncodeMessagesAppend(ms: seq<Message>, m: Message)
    ensures EncodeMessages(ms + [m]) == EncodeMessages(ms) + EncodeMessage(m)
  {
    var last := EncodeMessage(m);
    if |ms| == 0 {
      assert ms + [m] == [m];
      assert last + [] == [] + last;
    } else {
      TailOfAppend(ms, m);
      EncodeMessagesAppend(ms[1..], m);
      Associates(EncodeMessage(ms[0]), EncodeMessages(ms[1..]), last);
    }
  }

  lemma {:induction false} EncodeTopicsAppend(ts: seq<Topic>, t: Topic)
    ensures EncodeTopics(ts + [t]) == EncodeTopics(ts) + EncodeTopic(t)
  {
    var last := EncodeTopic(t);
    if |ts| == 0 {
      assert ts + [t] == [t];
      assert last + [] == [] + last;
    } else {
      TailOfAppend(ts, t);
      EncodeTopicsAppend(ts[1..], t);
      Associates(EncodeTopic(ts[0]), EncodeTopics(ts[1..]), last);
    }
  }

  // ---------------------------------------------------------------- the header

  const MAGIC: seq<Byte> := [76, 87, 73, 80, 67, 48, 48, 49]   // "LWIPC001"
  const HEADER_SIZE: nat := 56

  /** The header as it lies in memory: a 9-byte magic, three bytes of padding, then the fields. */
  datatype Header = Header(
    magic: seq<Byte>, padding: seq<Byte>, version: U32, startTime: U64, endTime: U64,
    messageCount: U32, topicCount: U32, compression: seq<Byte>)

  predicate HeaderShape(h: Header) {
    |h.magic| == 9 && |h.padding| == 3 && |h.compression| == 16
  }

  function EncodeHeader(h: Header): (bs: seq<Byte>)
    requires HeaderShape(h)
    ensures |bs| == HEADER_SIZE
  {
    h.magic + (h.padding + (ToLE(h.version, 4) + Times(h)))
  }

  /** The last five fields. */
  function Times(h: Header): (bs: seq<Byte>)
    requires HeaderShape(h)
    ensures |bs| == 40
  {
    ToLE(h.startTime, 8) + (ToLE(h.endTime, 8) + (ToLE(h.messageCount, 4) + (ToLE(h.topicCount, 4) + h.compression)))
  }

  function DecodeHeader(bs: seq<Byte>): (h: Header)
    requires |bs| == HEADER_SIZE
    ensures HeaderShape(h)
  {
    Spans();
    Header(bs[0..9], bs[9..12], FromLE(bs[12..16]), FromLE(bs[16..24]), FromLE(bs[24..32]),
           FromLE(bs[32..36]), FromLE(bs[36..40]), bs[40..56])
  }

  /** The field at position `i` and what follows it. */
  lemma FieldAt(bs: seq<Byte>, i: nat, field: seq<Byte>, rest: seq<Byte>)
    requires i <= |bs| && bs[i..] == field + rest
    ensures i + |field| <= |bs| && bs[i..i + |field|] == field && bs[i + |field|..] == rest
  {
    Split(field, rest);
    assert bs[i..][..|field|] == bs[i..i + |field|] && bs[i..][|field|..] == bs[i + |field|..];
  }

  lemma LastFieldsAt(bs: seq<Byte>, h: Header)
    requires HeaderShape(h) && |bs| == HEADER_SIZE && bs[16..] == Times(h)
    ensures bs[16..24] == ToLE(h.startTime, 8) && bs[24..32] == ToLE(h.endTime, 8)
    ensures bs[32..36] == ToLE(h.messageCount, 4) && bs[36..40] == ToLE(h.topicCount, 4)
    ensures bs[40..56] == h.compression
  {
    var tail := ToLE(h.topicCount, 4) + h.compression;
    FieldAt(bs, 16, ToLE(h.startTime, 8), ToLE(h.endTime, 8) + (ToLE(h.messageCount, 4) + tail));
    FieldAt(bs, 24, ToLE(h.endTime, 8), ToLE(h.messageCount, 4) + tail);
    FieldAt(bs, 32, ToLE(h.messageCount, 4), tail);
    FieldAt(bs, 36, ToLE(h.topicCount, 4), h.compression);
    assert bs[40..] == bs[40..56];
  }

  /** Where each field of the header lies. */
  lemma HeaderLayout(h: Header)
    requires HeaderShape(h)
    ensures |EncodeHeader(h)| == 56
    ensures var bs := EncodeHeader(h);
      && bs[0..9] == h.magic && bs[9..12] == h.padding && bs[12..16] == ToLE(h.version, 4)
      && bs[16..24] == ToLE(h.startTime, 8) && bs[24..32] == ToLE(h.endTime, 8)
      && bs[32..36] == ToLE(h.messageCount, 4) && bs[36..40] == ToLE(h.topicCount, 4)
      && bs[40..56] == h.compression
  {
    var bs := EncodeHeader(h);
    assert bs[0..] == bs;
    FieldAt(bs, 0, h.magic, h.padding + (ToLE(h.version, 4) + Times(h)));
    FieldAt(bs, 9, h.padding, ToLE(h.version, 4) + Times(h));
    FieldAt(bs, 12, ToLE(h.version, 4), Times(h));
    LastFieldsAt(bs, h);
  }

  lemma HeaderRoundTrip(h: Header)
    requires HeaderShape(h)
    ensures DecodeHeader(EncodeHeader(h)) == h
  {
    HeaderLayout(h);
    Spans();
    LERoundTrip(h.version, 4);
    LERoundTrip(h.startTime, 8);
    LERoundTrip(h.endTime, 8);
    LERoundTrip(h.messageCount, 4);
    LERoundTrip(h.topicCount, 4);
  }

  /** What the reader takes from the first bytes of a file, byte by byte. */
  lemma HeaderFields(bs: seq<Byte>)
    requires |bs| >= 56
    ensures var h := DecodeHeader(bs[..HEADER_SIZE]);
      && h.magic == bs[0..9] && h.compression == bs[40..56]
      && h.version == FourFrom(bs, 12) && h.messageCount == FourFrom(bs, 32) && h.topicCount == FourFrom(bs, 36)
      && h.startTime == EightFrom(bs, 16) && h.endTime == EightFrom(bs, 24)
  {
    var front := bs[..HEADER_SIZE];
    FourBytes(front[12..16]);
    FourBytes(front[32..36]);
    FourBytes(front[36..40]);
    EightBytes(front[16..24]);
    EightBytes(front[24..32]);
  }

  /** Four and eight bytes of a file as little-endian integers, written out. */
  function FourFrom(bs: seq<Byte>, i: nat): (x: int)
    requires i + 4 <= |bs|
    ensures x == FromLE(bs[i..i + 4])
  {
    FourBytes(bs[i..i + 4]);
    bs[i] as int + 0x100 * (bs[i + 1] as int) + 0x1_0000 * (bs[i + 2] as int) + 0x100_0000 * (bs[i + 3] as int)
  }

  function EightFrom(bs: seq<Byte>, i: nat): (x: int)
    requires i + 8 <= |bs|
    ensures x == FromLE(bs[i..i + 8])
  {
    EightBytes(bs[i..i + 8]);
    FourBytes(bs[i..i + 4]);
    FourBytes(bs[i + 4..i + 8]);
    FourFrom(bs, i) + 0x1_0000_0000 * FourFrom(bs, i + 4)
  }

  /** The bytes of a message and of a topic, part by part. */
  lemma PartsInOrder(m: Message, topic: Topic)
    ensures EncodeMessage(m)
         == ToLE(m.timestamp, 8)
          + ToLE(|m.topic| % 0x1_0000_0000, 4) + m.topic[..|m.topic| % 0x1_0000_0000]
          + ToLE(|m.data| % 0x1_0000_0000, 4) + m.data[..|m.data| % 0x1_0000_0000]
    ensures EncodeTopic(topic)
         == ToLE(|topic.name| % 0x1_0000_0000, 4) + topic.name[..|topic.name| % 0x1_0000_0000]
          + ToLE(|topic.kind| % 0x1_0000_0000, 4) + topic.kind[..|topic.kind| % 0x1_0000_0000]
          + ToLE(|topic.schema| % 0x1_0000_0000, 4) + topic.schema[..|topic.schema| % 0x1_0000_0000]
  {
    var stamp := ToLE(m.timestamp, 8);
    Associates(stamp, ToLE(|m.topic| % TWO32, 4), Cut(m.topic));
    Associates(stamp + Block(m.topic), ToLE(|m.data| % TWO32, 4), Cut(m.data));
    Associates(Block(topic.name), ToLE(|topic.kind| % TWO32, 4), Cut(topic.kind));
    Associates(Block(topic.name) + Block(topic.kind), ToLE(|topic.schema| % TWO32, 4), Cut(topic.schema));
  }

  // ---------------------------------------------------------------- whole files

  /** What opening a file yields: its header, its topics and the stream of messages; None if the
      file is refused or its topic section is cut short. */
  ghost function Opened(file: seq<Byte>): Option<(Header, seq<Topic>, seq<Byte>)> {
    if |file| < HEADER_SIZE then None
    else
      var h := DecodeHeader(file[..HEADER_SIZE]);
      if h.magic[..8] != MAGIC then None
      else
        match ReadTopics(file[HEADER_SIZE..], h.topicCount)
        case None => None
        case Some((ts, rest)) => Some((h, ts, rest))
  }

  ghost function FileOf(h: Header, ts: seq<Topic>, ms: seq<Message>): seq<Byte>
    requires HeaderShape(h)
  {
    Front(h, ts) + EncodeMessages(ms)
  }

  lemma OpeningAFile(h: Header, ts: seq<Topic>, body: seq<Byte>)
    requires HeaderShape(h) && h.magic[..8] == MAGIC && h.topicCount == |ts|
    ensures Opened(EncodeHeader(h) + EncodeTopics(ts) + body) == Some((h, AllTopicsStored(ts), body))
  {
    var head, tail := EncodeHeader(h), EncodeTopics(ts) + body;
    Associates(head, EncodeTopics(ts), body);
    Split(head, tail);
    HeaderRoundTrip(h);
    ReadTopicsBack(ts, body);
  }

  lemma TruncationKeepsFront(front: seq<Byte>, body: seq<Byte>, length: nat)
    requires |front| <= length
    ensures Take(front + body, length) == front + Take(body, length - |front|)
  {
  }

  /** The part of a file before its messages. */
  ghost function Front(h: Header, ts: seq<Topic>): (bs: seq<Byte>)
    requires HeaderShape(h)
    ensures |bs| == HEADER_SIZE + |EncodeTopics(ts)|
  {
    EncodeHeader(h) + EncodeTopics(ts)
  }

  /** Opening a file, or any truncation of it after its topic section, returns the header and the
      topics and leaves the messages that were not cut off. */
  lemma TruncatedFileOpens(h: Header, ts: seq<Topic>, ms: seq<Message>, length: nat)
    requires HeaderShape(h) && h.magic[..8] == MAGIC && h.topicCount == |ts|
    requires |Front(h, ts)| <= length
    ensures Opened(Take(FileOf(h, ts, ms), length))
         == Some((h, AllTopicsStored(ts), Take(EncodeMessages(ms), length - |Front(h, ts)|)))
  {
    var body := Take(EncodeMessages(ms), length - |Front(h, ts)|);
    TruncationKeepsFront(Front(h, ts), EncodeMessages(ms), length);
    OpeningAFile(h, ts, body);
  }

  /** Round trip, for a whole file and for every truncation after the topic section: header, topics and
      exactly the messages that are complete come back if and only if the header's topic count is the
      number of topics written; and nothing is incomplete if nothing was cut off. */
  lemma FileRoundTrip(h: Header, ts: seq<Topic>, ms: seq<Message>, length: nat)
    requires HeaderShape(h) && h.magic[..8] == MAGIC && |Front(h, ts)| <= length
    ensures var o := Opened(Take(FileOf(h, ts, ms), length));
      (&& o.Some? && o.value.0 == h && o.value.1 == AllTopicsStored(ts)
       && Playback(o.value.2) == AllStored(ms[..Complete(ms, length - |Front(h, ts)|)]))
      <==> h.topicCount == |ts|
    ensures length >= |FileOf(h, ts, ms)| ==> Complete(ms, length - |Front(h, ts)|) == |ms|
  {
    if h.topicCount == |ts| {
      TruncatedFileOpens(h, ts, ms, length);
      TruncatedPlayback(ms, length - |Front(h, ts)|);
    } else if Opened(Take(FileOf(h, ts, ms), length)).Some? {
      OpenedCountsTopics(Take(FileOf(h, ts, ms), length));
    }
    if length >= |FileOf(h, ts, ms)| {
      CompleteAll(ms, length - |Front(h, ts)|);
    }
  }

  lemma OpenedCountsTopics(file: seq<Byte>)
    requires Opened(file).Some?
    ensures |file| >= HEADER_SIZE && Opened(file).value.0 == DecodeHeader(file[..HEADER_SIZE])
    ensures |Opened(file).value.1| == Opened(file).value.0.topicCount
  {
  }

  lemma HeaderOfAFile(h: Header, tail: seq<Byte>)
    requires HeaderShape(h)
    ensures DecodeHeader((EncodeHeader(h) + tail)[..HEADER_SIZE]) == h
  {
    Split(EncodeHeader(h), tail);
    HeaderRoundTrip(h);
  }

  lemma FileStartsWithItsHeader(h: Header, ts: seq<Topic>, ms: seq<Message>)
    requires HeaderShape(h)
    ensures |FileOf(h, ts, ms)| >= HEADER_SIZE
    ensures DecodeHeader(FileOf(h, ts, ms)[..HEADER_SIZE]) == h
    ensures FileOf(h, ts, ms)[HEADER_SIZE..] == EncodeTopics(ts) + EncodeMessages(ms)
  {
    var tail := EncodeTopics(ts) + EncodeMessages(ms);
    Associates(EncodeHeader(h), EncodeTopics(ts), EncodeMessages(ms));
    Split(EncodeHeader(h), tail);
    HeaderOfAFile(h, tail);
  }

  /** The same bytes in a file, at their offsets. */
  lemma FileLayout(h: Header, ts: seq<Topic>, ms: seq<Message>)
    requires HeaderShape(h)
    ensures var file := FileOf(h, ts, ms);
      && |file| >= 56
      && file[0..9] == h.magic && file[9..12] == h.padding && file[12..16] == ToLE(h.version, 4)
      && file[16..24] == ToLE(h.startTime, 8) && file[24..32] == ToLE(h.endTime, 8)
      && file[32..36] == ToLE(h.messageCount, 4) && file[36..40] == ToLE(h.topicCount, 4)
      && file[40..56] == h.compression
      && file[56..] == EncodeTopics(ts) + EncodeMessages(ms)
  {
    FileStartsWithItsHeader(h, ts, ms);
    HeaderLayout(h);
    FrontOfFile(h, ts, ms);
    var file, front := FileOf(h, ts, ms), EncodeHeader(h);
    SameSlice(file, front, 0, 9);
    SameSlice(file, front, 9, 12);
    SameSlice(file, front, 12, 16);
    SameSlice(file, front, 16, 24);
    SameSlice(file, front, 24, 32);
    SameSlice(file, front, 32, 36);
    SameSlice(file, front, 36, 40);
    SameSlice(file, front, 40, 56);
  }

  lemma FrontOfFile(h: Header, ts: seq<Topic>, ms: seq<Message>)
    requires HeaderShape(h)
    ensures |FileOf(h, ts, ms)| >= 56 && FileOf(h, ts, ms)[..56] == EncodeHeader(h)
  {
    Associates(EncodeHeader(h), EncodeTopics(ts), EncodeMessages(ms));
    Split(EncodeHeader(h), EncodeTopics(ts) + EncodeMessages(ms));
  }

  lemma SameSlice(file: seq<Byte>, front: seq<Byte>, i: nat, j: nat)
    requires i <= j <= |front| <= |file| && file[..|front|] == front
    ensures file[i..j] == front[i..j]
  {
    forall k | i <= k < j ensures file[k] == front[k] {
      assert file[..|front|][k] == file[k];
    }
  }

  /** The topics come back exactly when the header's topic count is the number of topics written:
      a count changed by `addTopic` during recording and written back by `stop` always spoils them. */
  lemma TopicsComeBackIff(h: Header, ts: seq<Topic>, ms: seq<Message>)
    requires HeaderShape(h) && h.magic[..8] == MAGIC
    ensures var o := Opened(FileOf(h, ts, ms));
      (o.Some? && o.value.1 == AllTopicsStored(ts)) <==> h.topicCount == |ts|
  {
    if h.topicCount == |ts| {
      OpeningAFile(h, ts, EncodeMessages(ms));
    } else if Opened(FileOf(h, ts, ms)).Some? {
      OpenedCountsTopics(FileOf(h, ts, ms));
      FileStartsWithItsHeader(h, ts, ms);
    }
  }

  /** A whole bag gives back exactly the topics and messages recorded if and only if the header counts
      the topics and all lengths fit the 32-bit fields of the format. */
  lemma RoundTripIff(h: Header, ts: seq<Topic>, ms: seq<Message>)
    requires HeaderShape(h) && h.magic[..8] == MAGIC
    ensures var o := Opened(FileOf(h, ts, ms));
      (o.Some? && o.value.1 == ts && Playback(o.value.2) == ms)
      <==> && h.topicCount == |ts|
           && (forall k | 0 <= k < |ts| :: TopicFits(ts[k])) && (forall k | 0 <= k < |ms| :: Fits(ms[k]))
  {
    if h.topicCount == |ts| {
      OpeningAFile(h, ts, EncodeMessages(ms));
      WholePlayback(ms);
      AllStoredIsWhole(ms);
      AllTopicsStoredIsWhole(ts);
    } else if Opened(FileOf(h, ts, ms)).Some? {
      OpenedCountsTopics(FileOf(h, ts, ms));
      FileStartsWithItsHeader(h, ts, ms);
    }
  }

  // ---------------------------------------------------------------- a wrong topic count

  /** What reaches the callback when a file is opened and played. */
  ghost function Delivered(file: seq<Byte>): seq<Message> {
    match Opened(file)
    case None => []
    case Some((_, _, rest)) => Playback(rest)
  }

  lemma MessageSize(m: Message)
    ensures |EncodeMessage(m)| == 16 + |Cut(m.topic)| + |Cut(m.data)|
    ensures |EncodeMessage(m)| <= 16 + |m.topic| + |m.data|
  {
  }

  lemma StoredHasSameSize(m: Message)
    ensures |EncodeMessage(Stored(m))| == |EncodeMessage(m)|
  {
    MessageSize(m);
    MessageSize(Stored(m));
  }

  lemma {:induction false} AllStoredHasSameSize(ms: seq<Message>)
    ensures |EncodeMessages(AllStored(ms))| == |EncodeMessages(ms)|
  {
    if |ms| > 0 {
      assert AllStored(ms)[1..] == AllStored(ms[1..]);
      StoredHasSameSize(ms[0]);
      AllStoredHasSameSize(ms[1..]);
    }
  }

  /** What playback delivers would take no more room than the stream it came from. */
  lemma {:induction false} PlaybackTakesNoMore(bs: seq<Byte>)
    ensures |EncodeMessages(Playback(bs))| <= |bs|
    decreases |bs|
  {
    if ReadMessage(bs).Some? {
      var (m, rest) := ReadMessage(bs).value;
      assert Playback(bs) == [m] + Playback(rest);
      EncodeFirst(m, Playback(rest));
      MessageSize(m);
      PlaybackTakesNoMore(rest);
    }
  }

  lemma EncodeFirst(m: Message, later: seq<Message>)
    ensures EncodeMessages([m] + later) == EncodeMessage(m) + EncodeMessages(later)
  {
    assert ([m] + later)[1..] == later;
  }

  /** With too large a topic count a non-empty bag never plays back its messages: the surplus topics
      are taken out of them. */
  lemma SurplusTopicsEatMessages(h: Header, ts: seq<Topic>, ms: seq<Message>)
    requires HeaderShape(h) && h.magic[..8] == MAGIC && h.topicCount > |ts|
    ensures Delivered(FileOf(h, ts, ms)) == AllStored(ms) <==> ms == []
  {
    var body := EncodeMessages(ms);
    FileStartsWithItsHeader(h, ts, ms);
    SurplusComesFromBody(ts, body, h.topicCount);
    AllStoredHasSameSize(ms);
    if Opened(FileOf(h, ts, ms)).Some? {
      PlaybackTakesNoMore(Opened(FileOf(h, ts, ms)).value.2);
    }
  }

  /** The messages of a bag whose topic count is not too small come back exactly when the count is
      right or there are none. */
  lemma MessagesComeBackIff(h: Header, ts: seq<Topic>, ms: seq<Message>)
    requires HeaderShape(h) && h.magic[..8] == MAGIC && h.topicCount >= |ts|
    ensures Delivered(FileOf(h, ts, ms)) == AllStored(ms) <==> h.topicCount == |ts| || ms == []
  {
    if h.topicCount == |ts| {
      OpeningAFile(h, ts, EncodeMessages(ms));
      WholePlayback(ms);
    } else {
      SurplusTopicsEatMessages(h, ts, ms);
    }
  }

  lemma {:induction false} EncodeTopicsInTwo(ts: seq<Topic>, k: nat)
    requires k <= |ts|
    ensures EncodeTopics(ts) == EncodeTopics(ts[..k]) + EncodeTopics(ts[k..])
  {
    if k > 0 {
      EncodeTopicsInTwo(ts[1..], k - 1);
      assert ts[..k][1..] == ts[1..][..k - 1] && ts[k..] == ts[1..][k - 1..];
      Associates(EncodeTopic(ts[0]), EncodeTopics(ts[1..][..k - 1]), EncodeTopics(ts[k..]));
    } else {
      assert ts[..0] == [] && ts[0..] == ts;
    }
  }

  /** With too small a topic count the topics not asked for are played as if they were messages. */
  lemma LeftoverTopicsArePlayed(h: Header, ts: seq<Topic>, ms: seq<Message>)
    requires HeaderShape(h) && h.magic[..8] == MAGIC && h.topicCount <= |ts|
    ensures Delivered(FileOf(h, ts, ms)) == Playback(EncodeTopics(ts[h.topicCount..]) + EncodeMessages(ms))
  {
    var k := h.topicCount;
    var body := EncodeTopics(ts[k..]) + EncodeMessages(ms);
    EncodeTopicsInTwo(ts, k);
    Associates(EncodeTopics(ts[..k]), EncodeTopics(ts[k..]), EncodeMessages(ms));
    FileStartsWithItsHeader(h, ts, ms);
    ReadTopicsBack(ts[..k], body);
  }

  const NO_TOPIC := Topic([], [], [])
  const NO_MESSAGE := Message(0, [], [])

  lemma {:induction false} ZeroBytes(n: nat)
    ensures forall k | 0 <= k < n :: ToLE(0, n)[k] == 0
  {
    if n > 0 {
      ZeroBytes(n - 1);
      assert ToLE(0, n) == [0] + ToLE(0, n - 1);
    }
  }

  lemma NothingIsZeros()
    ensures |EncodeTopic(NO_TOPIC)| == 12 && |EncodeMessage(NO_MESSAGE)| == 16
    ensures forall k | 0 <= k < 12 :: EncodeTopic(NO_TOPIC)[k] == 0
    ensures forall k | 0 <= k < 16 :: EncodeMessage(NO_MESSAGE)[k] == 0
  {
    ZeroBytes(4);
    ZeroBytes(8);
    assert Block([]) == ToLE(0, 4);
  }

  lemma SameZeros()
    ensures EncodeTopic(NO_TOPIC) + [0, 0, 0, 0] == EncodeMessage(NO_MESSAGE)
    ensures EncodeTopic(NO_TOPIC) + EncodeMessage(NO_MESSAGE) == EncodeMessage(NO_MESSAGE) + EncodeTopic(NO_TOPIC)
  {
    NothingIsZeros();
  }

  lemma SmallInteger(x: Byte)
    ensures ToLE(x, 4) == [x, 0, 0, 0] && ToLE(x, 8) == [x, 0, 0, 0, 0, 0, 0, 0]
  {
    ZeroBytes(3);
    ZeroBytes(7);
  }

  lemma SmallBlocks()
    ensures Block([97]) == [1, 0, 0, 0, 97] && Block([7]) == [1, 0, 0, 0, 7]
    ensures Block([98, 99]) == [2, 0, 0, 0, 98, 99] && Block([]) == [0, 0, 0, 0]
  {
    SmallInteger(0);
    SmallInteger(1);
    SmallInteger(2);
  }

  lemma Glued<T>(a: seq<T>, b: seq<T>, c: seq<T>, whole: seq<T>)
    requires |whole| == |a| + |b| + |c|
    requires whole[..|a|] == a && whole[|a|..|a| + |b|] == b && whole[|a| + |b|..] == c
    ensures a + b + c == whole
  {
  }

  /** A message, byte for byte. */
  lemma ExampleMessage()
    ensures EncodeMessage(Message(1, [97], [7])) == [1, 0, 0, 0, 0, 0, 0, 0, 1, 0, 0, 0, 97, 1, 0, 0, 0, 7]
  {
    SmallBlocks();
    SmallInteger(1);
    Glued([1, 0, 0, 0, 0, 0, 0, 0], [1, 0, 0, 0, 97], [1, 0, 0, 0, 7],
          [1, 0, 0, 0, 0, 0, 0, 0, 1, 0, 0, 0, 97, 1, 0, 0, 0, 7]);
  }

  lemma PlayedAlone(m: Message, bytes: seq<Byte>)
    requires bytes == EncodeMessage(m) && Fits(m)
    ensures Playback(bytes) == [m]
  {
    CutIsWhole(m.topic);
    CutIsWhole(m.data);
    assert bytes + [] == bytes;
    PlayOneMore(m, []);
    assert Playback([]) == [];
  }

  /** And back. */
  lemma ExamplePlayed()
    ensures Playback([1, 0, 0, 0, 0, 0, 0, 0, 1, 0, 0, 0, 97, 1, 0, 0, 0, 7]) == [Message(1, [97], [7])]
  {
    ExampleMessage();
    PlayedAlone(Message(1, [97], [7]), EncodeMessage(Message(1, [97], [7])));
  }

  /** A topic, byte for byte. */
  lemma ExampleTopic()
    ensures EncodeTopic(Topic([97], [98, 99], [])) == [1, 0, 0, 0, 97, 2, 0, 0, 0, 98, 99, 0, 0, 0, 0]
  {
    SmallBlocks();
    Glued([1, 0, 0, 0, 97], [2, 0, 0, 0, 98, 99], [0, 0, 0, 0],
          [1, 0, 0, 0, 97, 2, 0, 0, 0, 98, 99, 0, 0, 0, 0]);
  }

  lemma OneOfEach()
    ensures EncodeTopics([NO_TOPIC]) == EncodeTopic(NO_TOPIC)
    ensures EncodeMessages([NO_MESSAGE]) == EncodeMessage(NO_MESSAGE)
    ensures AllStored([NO_MESSAGE]) == [NO_MESSAGE]
  {
    assert [NO_TOPIC][1..] == [] && [NO_MESSAGE][1..] == [];
    assert EncodeTopic(NO_TOPIC) + [] == EncodeTopic(NO_TOPIC);
    assert EncodeMessage(NO_MESSAGE) + [] == EncodeMessage(NO_MESSAGE);
    assert Stored(NO_MESSAGE) == NO_MESSAGE;
  }

  /** A spoiled bag with a message in it: counted as one topic too many, it opens with a topic made of
      the message's first bytes, and no message is left. */
  lemma MessageReadAsTopic(h: Header)
    requires HeaderShape(h) && h.magic[..8] == MAGIC && h.topicCount == 1
    ensures Opened(FileOf(h, [], [NO_MESSAGE])) == Some((h, [NO_TOPIC], [0, 0, 0, 0]))
    ensures Delivered(FileOf(h, [], [NO_MESSAGE])) == []
  {
    SameZeros();
    OneOfEach();
    FileStartsWithItsHeader(h, [], [NO_MESSAGE]);
    assert EncodeTopics([]) + EncodeMessages([NO_MESSAGE]) == EncodeTopics([NO_TOPIC]) + [0, 0, 0, 0];
    ReadTopicsBack([NO_TOPIC], [0, 0, 0, 0]);
    assert AllTopicsStored([NO_TOPIC]) == [NO_TOPIC];
  }

  /** A count that is too small can go unnoticed by the messages: here the topic nobody asked for reads
      like the message after it. */
  lemma LeftoverTopicReadAsMessage(h: Header)
    requires HeaderShape(h) && h.magic[..8] == MAGIC && h.topicCount == 0
    ensures Delivered(FileOf(h, [NO_TOPIC], [NO_MESSAGE])) == AllStored([NO_MESSAGE])
  {
    SameZeros();
    OneOfEach();
    assert [NO_TOPIC][0..] == [NO_TOPIC];
    LeftoverTopicsArePlayed(h, [NO_TOPIC], [NO_MESSAGE]);
    PlayOneMore(NO_MESSAGE, EncodeTopic(NO_TOPIC));
    assert |EncodeTopic(NO_TOPIC)| == 12;
  }
}
