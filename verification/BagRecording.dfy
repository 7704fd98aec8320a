/** `BagRecorder` in its own form: a header, a topic list and a file cursor updated in place. */
module BagRecording {
  import opened Bytes
  import opened BagFormat

  datatype TopicInfo = TopicInfo(topic: Topic, messageCount: U32)

  /** Bytes written over a file from position `at`; what lies beyond stays. */
  function Overwrite(file: seq<Byte>, at: nat, bs: seq<Byte>): seq<Byte>
    requires at <= |file|
  {
    file[..at] + bs + (if at + |bs| <= |file| then file[at + |bs|..] else [])
  }

  lemma OverwriteAtEndAppends(file: seq<Byte>, bs: seq<Byte>)
    ensures Overwrite(file, |file|, bs) == file + bs
  {
  }

  /** Rewriting the front in place changes no byte after it. */
  lemma OverwriteAtStartKeepsRest(front: seq<Byte>, rest: seq<Byte>, bs: seq<Byte>)
    requires |bs| == |front|
    ensures Overwrite(front + rest, 0, bs) == bs + rest
    ensures forall k | |front| <= k < |front + rest| :: (bs + rest)[k] == (front + rest)[k]
  {
  }

  /** The bytes of a string up to its first NUL, as `c_str` shows it to `strncpy`. */
  function CString(s: seq<Byte>): (r: seq<Byte>)
    ensures r <= s && (|r| < |s| ==> s[|r|] == 0)
  {
    if |s| == 0 || s[0] == 0 then [] else [s[0]] + CString(s[1..])
  }

  function Zeros(n: nat): (r: seq<Byte>)
    ensures |r| == n && forall k | 0 <= k < n :: r[k] == 0
  {
    if n == 0 then [] else [0] + Zeros(n - 1)
  }

  /** `strncpy(dst, src, 15)` into a 16-byte field. */
  function CopyName(old16: seq<Byte>, s: seq<Byte>): (r: seq<Byte>)
    requires |old16| == 16
    ensures |r| == 16 && r[15] == old16[15]
    ensures forall k | 0 <= k < 15 :: r[k] == if k < |CString(s)| then CString(s)[k] else 0
  {
    var c := CString(s);
    var kept := if |c| <= 15 then c else c[..15];
    kept + Zeros(15 - |kept|) + old16[15..]
  }

  lemma {:induction false} CStringStopsAtNul(s: seq<Byte>, rest: seq<Byte>)
    requires forall k | 0 <= k < |s| :: s[k] != 0
    requires |rest| > 0 && rest[0] == 0
    ensures CString(s + rest) == s
  {
    if |s| == 0 {
      assert s + rest == rest;
    } else {
      CStringStopsAtNul(s[1..], rest);
      assert (s + rest)[1..] == s[1..] + rest;
    }
  }

  lemma {:induction false} CStringHasNoNul(s: seq<Byte>)
    ensures forall k | 0 <= k < |CString(s)| :: CString(s)[k] != 0
  {
    if |s| > 0 {
      CStringHasNoNul(s[1..]);
    }
  }

  /** The stored compression name reads back as the configured one, cut to 15 bytes, as long as the
      field still ends in the NUL it was made with; and copying keeps that NUL. */
  lemma CompressionNameComesBack(old16: seq<Byte>, s: seq<Byte>)
    requires |old16| == 16 && old16[15] == 0
    ensures var c := CString(s);
      CString(CopyName(old16, s)) == if |c| <= 15 then c else c[..15]
    ensures CopyName(old16, s)[15] == 0
  {
    var c := CString(s);
    var kept := if |c| <= 15 then c else c[..15];
    CStringHasNoNul(s);
    assert CopyName(old16, s) == kept + (Zeros(15 - |kept|) + old16[15..]);
    CStringStopsAtNul(kept, Zeros(15 - |kept|) + old16[15..]);
  }

  function TopicsOf(infos: seq<TopicInfo>): (ts: seq<Topic>)
    ensures |ts| == |infos| && forall i | 0 <= i < |infos| :: ts[i] == infos[i].topic
  {
    seq(|infos|, i requires 0 <= i < |infos| => infos[i].topic)
  }

  lemma NoMessagesYet(h: Header, ts: seq<Topic>)
    requires HeaderShape(h)
    ensures FileOf(h, ts, []) == EncodeHeader(h) + EncodeTopics(ts)
  {
  }

  lemma OneMoreMessage(h: Header, ts: seq<Topic>, ms: seq<Message>, m: Message)
    requires HeaderShape(h)
    ensures FileOf(h, ts, ms) + EncodeMessage(m) == FileOf(h, ts, ms + [m])
  {
    Associates(Front(h, ts), EncodeMessages(ms), EncodeMessage(m));
    EncodeMessagesAppend(ms, m);
  }

  /** A header as this recorder makes it: its magic is "LWIPC001" with a NUL, its version 1, and its
      compression name ends. */
  ghost predicate Ours(h: Header) {
    && HeaderShape(h) && h.magic[..8] == MAGIC && h.magic == [76, 87, 73, 80, 67, 48, 48, 49, 0]
    && h.version == 1 && h.compression[15] == 0
  }

  /** Counting in 32 bits. */
  lemma CountWraps(n: nat)
    ensures (n % TWO32 + 1) % TWO32 == (n + 1) % TWO32
  {
  }

  lemma FileInTwo(h: Header, ts: seq<Topic>, ms: seq<Message>)
    requires HeaderShape(h)
    ensures FileOf(h, ts, ms) == EncodeHeader(h) + (EncodeTopics(ts) + EncodeMessages(ms))
  {
    Associates(EncodeHeader(h), EncodeTopics(ts), EncodeMessages(ms));
  }

  /** Writing another header over the front of a bag gives the bag with that header; nothing else moves. */
  lemma HeaderRewritten(h: Header, h': Header, ts: seq<Topic>, ms: seq<Message>)
    requires HeaderShape(h) && HeaderShape(h')
    ensures var file, file' := FileOf(h, ts, ms), FileOf(h', ts, ms);
      && Overwrite(file, 0, EncodeHeader(h')) == file' && |file'| == |file|
      && forall k | HEADER_SIZE <= k < |file| :: file'[k] == file[k]
  {
    FileInTwo(h, ts, ms);
    FileInTwo(h', ts, ms);
    OverwriteAtStartKeepsRest(EncodeHeader(h), EncodeTopics(ts) + EncodeMessages(ms), EncodeHeader(h'));
  }

  /** Where everything lies in a file of this recorder. */
  lemma OurFileLayout(h: Header, ts: seq<Topic>, ms: seq<Message>)
    requires Ours(h)
    ensures var file := FileOf(h, ts, ms);
      && |file| >= 56 && file[0..9] == [76, 87, 73, 80, 67, 48, 48, 49, 0] && file[12..16] == [1, 0, 0, 0]
      && file[16..24] == ToLE(h.startTime, 8) && file[24..32] == ToLE(h.endTime, 8)
      && file[32..36] == ToLE(h.messageCount, 4) && file[36..40] == ToLE(h.topicCount, 4)
      && file[56..] == EncodeTopics(ts) + EncodeMessages(ms)
  {
    FileLayout(h, ts, ms);
    SmallInteger(1);
  }

  lemma FileStartsWithMagic(h: Header, ts: seq<Topic>, ms: seq<Message>)
    requires Ours(h)
    ensures |FileOf(h, ts, ms)| >= 56 && FileOf(h, ts, ms)[0..9] == [76, 87, 73, 80, 67, 48, 48, 49, 0]
  {
    OurFileLayout(h, ts, ms);
  }

  class BagRecorder {
    var outputPath: seq<Byte>
    var compression: seq<Byte>
    var file: seq<Byte>
    var put: nat
    var header: Header
    var topics: seq<TopicInfo>
    var recording: bool
    ghost var startHeader: Header
    ghost var startTopics: seq<Topic>
    ghost var written: seq<Message>

    ghost predicate HeaderOk()
      reads this
    {
      && Ours(header) && Ours(startHeader)
      && (forall i, j | 0 <= i < j < |topics| :: topics[i].topic.name != topics[j].topic.name)
      && |startTopics| <= |topics|
    }

    /** While recording, the file is at every moment a well-formed bag of what was recorded so far,
        so a crash before `stop` loses nothing but the final header. */
    ghost predicate Valid()
      reads this
    {
      && HeaderOk()
      && (recording ==>
            && file == FileOf(startHeader, startTopics, written) && put == |file|
            && startHeader.topicCount == |startTopics| % TWO32
            && header.messageCount == |written| % TWO32)
      && header.topicCount == |topics| % TWO32
    }

    /** A fresh recorder; `padding` is whatever lies between the header's magic and version. */
    constructor (padding: seq<Byte>)
      requires |padding| == 3
      ensures Valid() && !recording && topics == [] && outputPath == []
      ensures compression == [110, 111, 110, 101]
      ensures header.startTime == header.endTime == 0 && header.compression == Zeros(16)
    {
      outputPath, file, put, topics, recording := [], [], 0, [], false;
      compression := [110, 111, 110, 101];  // "none"
      var h := Header(MAGIC + [0], padding, 1, 0, 0, 0, 0, Zeros(16));
      header, startHeader := h, h;
      startTopics, written := [], [];
    }

    method Configure(path: seq<Byte>, codec: seq<Byte>) returns (ok: bool)
      requires Valid()
      modifies this`outputPath, this`compression
      ensures Valid() && (ok <==> !recording && path != [])
      ensures if recording then outputPath == old(outputPath) && compression == old(compression)
              else outputPath == path && compression == codec
    {
      if recording {
        return false;
      }
      outputPath, compression := path, codec;
      return path != [];
    }

    /** Refuses a name already present.  It does not look at `recording`: during a recording it
        changes the topic count that `Stop` will write, but not the topics in the file. */
    method AddTopic(name: seq<Byte>, kind: seq<Byte>, schema: seq<Byte>) returns (ok: bool)
      requires Valid()
      modifies this`topics, this`header
      ensures Valid()
      ensures ok <==> forall i | 0 <= i < |old(topics)| :: old(topics)[i].topic.name != name
      ensures topics == old(topics) + (if ok then [TopicInfo(Topic(name, kind, schema), 0)] else [])
      ensures header == old(header).(topicCount := |topics| % TWO32)
    {
      var i := 0;
      while i < |topics|
        invariant 0 <= i <= |topics|
        invariant forall k | 0 <= k < i :: topics[k].topic.name != name
      {
        if topics[i].topic.name == name {
          return false;
        }
        i := i + 1;
      }
      topics := topics + [TopicInfo(Topic(name, kind, schema), 0)];
      header := header.(topicCount := |topics| % TWO32);
      return true;
    }

    method Write(bs: seq<Byte>)
      requires put == |file|
      modifies this`file, this`put
      ensures file == old(file) + bs && put == |file|
    {
      OverwriteAtEndAppends(file, bs);
      file := Overwrite(file, put, bs);
      put := put + |bs|;
    }

    method WriteBlock(data: seq<Byte>)
      requires put == |file|
      modifies this`file, this`put
      ensures file == old(file) + Block(data) && put == |file|
    {
      var length := |data| % TWO32;
      Associates(file, ToLE(length, 4), data[..length]);
      Write(ToLE(length, 4));
      Write(data[..length]);
    }

    method WriteTopic(t: Topic)
      requires put == |file|
      modifies this`file, this`put
      ensures file == old(file) + EncodeTopic(t) && put == |file|
    {
      ghost var a, b, c := Block(t.name), Block(t.kind), Block(t.schema);
      Associates(file, a, b);
      Associates(file, a + b, c);
      WriteBlock(t.name);
      WriteBlock(t.kind);
      WriteBlock(t.schema);
    }

    method WriteTopics()
      requires put == |file|
      modifies this`file, this`put
      ensures file == old(file) + EncodeTopics(TopicsOf(topics)) && put == |file|
    {
      ghost var ts, front := TopicsOf(topics), file;
      var i := 0;
      while i < |topics|
        invariant 0 <= i <= |topics| == |ts| && put == |file|
        invariant file == front + EncodeTopics(ts[..i])
      {
        Associates(front, EncodeTopics(ts[..i]), EncodeTopic(ts[i]));
        EncodeTopicsAppend(ts[..i], ts[i]);
        assert ts[..i + 1] == ts[..i] + [ts[i]];
        WriteTopic(topics[i].topic);
        i := i + 1;
      }
      assert ts[..i] == ts;
    }

    method WriteFront()
      requires file == [] && put == 0 && HeaderShape(header)
      modifies this`file, this`put
      ensures file == FileOf(header, TopicsOf(topics), []) && put == |file|
    {
      NoMessagesYet(header, TopicsOf(topics));
      Write(EncodeHeader(header));
      WriteTopics();
    }

    /** The header `start` writes. */
    function FirstHeader(now: U64): (h: Header)
      reads this
      requires HeaderShape(header)
      ensures HeaderShape(h) && h.magic == header.magic && h.padding == header.padding && h.version == header.version
      ensures h.startTime == now && h.endTime == 0 && h.messageCount == 0 && h.topicCount == |topics| % TWO32
      ensures h.compression
           == if compression == [] then header.compression else CopyName(header.compression, compression)
    {
      header.(startTime := now, endTime := 0, messageCount := 0, topicCount := |topics| % TWO32,
              compression := if compression == [] then header.compression
                             else CopyName(header.compression, compression))
    }

    /** A `start` that is not refused. */
    method StartFile(now: U64)
      requires Valid() && !recording
      modifies this`file, this`put, this`header, this`recording, this`startHeader, this`startTopics, this`written
      ensures Valid() && recording && header == old(FirstHeader(now))
      ensures startHeader == header && startTopics == TopicsOf(topics) && written == []
    {
      file, put := [], 0;
      header := FirstHeader(now);
      WriteFront();
      recording := true;
      startHeader, startTopics, written := header, TopicsOf(topics), [];
    }

    /** Refused while recording, without a path, or when the file cannot be opened; otherwise the
        file becomes a bag of the present topics and no messages. */
    method Start(now: U64, canOpen: bool) returns (ok: bool)
      requires Valid()
      modifies this
      ensures Valid() && (ok <==> !old(recording) && outputPath != [] && canOpen)
      ensures topics == old(topics) && outputPath == old(outputPath) && compression == old(compression)
      ensures recording == (old(recording) || ok)
      ensures ok ==> startHeader == header && startTopics == TopicsOf(topics) && written == []
      ensures ok ==> header.startTime == now && header.endTime == 0 && header.messageCount == 0
      ensures ok && compression != [] ==>
                header.compression == CopyName(old(header.compression), compression)
      ensures ok ==> |file| >= 56 && file[0..9] == [76, 87, 73, 80, 67, 48, 48, 49, 0]
      ensures !ok ==> header == old(header) && file == old(file) && written == old(written)
    {
      if recording || outputPath == [] || !canOpen {
        return false;
      }
      StartFile(now);
      FileStartsWithMagic(header, startTopics, []);
      return true;
    }

    /** Refused when not recording; otherwise appends the message to the file and counts it. */
    method Record(topic: seq<Byte>, timestamp: U64, data: seq<Byte>) returns (ok: bool)
      requires Valid()
      modifies this`file, this`put, this`header, this`topics, this`written
      ensures Valid() && (ok <==> recording)
      ensures written == old(written) + (if ok then [Message(timestamp, topic, data)] else [])
      ensures |topics| == |old(topics)|
      ensures forall i | 0 <= i < |topics| ::
        && topics[i].topic == old(topics)[i].topic
        && topics[i].messageCount
        == if ok && topics[i].topic.name == topic then (old(topics)[i].messageCount + 1) % 0x1_0000_0000
           else old(topics)[i].messageCount
      ensures header == old(header).(messageCount :=
                if ok then (old(header.messageCount) + 1) % 0x1_0000_0000 else old(header.messageCount))
      ensures !ok ==> file == old(file)
    {
      if !recording {
        return false;
      }
      AppendMessage(Message(timestamp, topic, data));
      CountForTopic(topic);
      return true;
    }

    method WriteMessage(m: Message)
      requires put == |file|
      modifies this`file, this`put
      ensures file == old(file) + EncodeMessage(m) && put == |file|
    {
      ghost var a, b, c := ToLE(m.timestamp, 8), Block(m.topic), Block(m.data);
      Associates(file, a, b);
      Associates(file, a + b, c);
      Write(ToLE(m.timestamp, 8));
      WriteBlock(m.topic);
      WriteBlock(m.data);
    }

    /** Writing a message at the end of the bag makes it a bag of one message more. */
    method AppendToBag(m: Message)
      requires HeaderShape(startHeader) && file == FileOf(startHeader, startTopics, written) && put == |file|
      modifies this`file, this`put, this`written
      ensures written == old(written) + [m]
      ensures file == FileOf(startHeader, startTopics, written) && put == |file|
    {
      OneMoreMessage(startHeader, startTopics, written, m);
      WriteMessage(m);
      written := written + [m];
    }

    /** One message at the end of the file, and one more in the header's count. */
    method AppendMessage(m: Message)
      requires Valid() && recording
      modifies this`file, this`put, this`written, this`header
      ensures Valid() && written == old(written) + [m]
      ensures header == old(header).(messageCount := (old(header.messageCount) + 1) % TWO32)
    {
      CountWraps(|written|);
      AppendToBag(m);
      header := header.(messageCount := (header.messageCount + 1) % TWO32);
    }

    /** Adds one to the counter of the topic of that name, if there is one. */
    method CountForTopic(name: seq<Byte>)
      requires HeaderOk()
      modifies this`topics
      ensures HeaderOk() && |topics| == |old(topics)|
      ensures forall i | 0 <= i < |topics| ::
        && topics[i].topic == old(topics)[i].topic
        && topics[i].messageCount
        == if topics[i].topic.name == name then (old(topics)[i].messageCount + 1) % 0x1_0000_0000
           else old(topics)[i].messageCount
    {
      var i := 0;
      while i < |topics|
        invariant 0 <= i <= |topics| && topics == old(topics)
        invariant forall k | 0 <= k < i :: topics[k].topic.name != name
      {
        if topics[i].topic.name == name {
          topics := topics[i := topics[i].(messageCount := (topics[i].messageCount + 1) % TWO32)];
          return;
        }
        i := i + 1;
      }
    }

    /** The overload for message views refuses empty payloads and a zero timestamp. */
    method RecordView(topic: seq<Byte>, timestamp: U64, payload: seq<Byte>) returns (ok: bool)
      requires Valid()
      modifies this`file, this`put, this`header, this`topics, this`written
      ensures Valid() && (ok <==> recording && payload != [] && timestamp != 0)
      ensures written == old(written) + (if ok then [Message(timestamp, topic, payload)] else [])
      ensures !ok ==> file == old(file) && header == old(header)
      ensures header == old(header).(messageCount := header.messageCount) && |topics| == |old(topics)|
      ensures header.messageCount == if ok then (old(header.messageCount) + 1) % 0x1_0000_0000
                                     else old(header.messageCount)
      ensures forall i | 0 <= i < |topics| ::
        && topics[i].topic == old(topics)[i].topic
        && topics[i].messageCount
        == if ok && topics[i].topic.name == topic then (old(topics)[i].messageCount + 1) % 0x1_0000_0000
           else old(topics)[i].messageCount
    {
      if payload == [] || timestamp == 0 {
        return false;
      }
      ok := Record(topic, timestamp, payload);
    }

    /** Rewrites the header in place and closes.  The finished file is a bag with the final header;
        nothing after the header has changed. */
    method Stop(now: U64)
      requires Valid()
      modifies this
      ensures Valid() && !recording && topics == old(topics) && outputPath == old(outputPath)
      ensures startTopics == old(startTopics) && written == old(written)
      ensures !old(recording) ==> file == old(file) && header == old(header)
      ensures old(recording) ==> header == old(header).(endTime := now)
      ensures old(recording) ==>
        && header.messageCount == |written| % TWO32 && header.topicCount == |topics| % TWO32
        && file == FileOf(header, startTopics, written) && |file| == |old(file)|
        && (forall k | HEADER_SIZE <= k < |file| :: file[k] == old(file)[k])
      ensures old(recording) ==> |file| >= 56 && file[0..9] == [76, 87, 73, 80, 67, 48, 48, 49, 0]
    {
      if !recording {
        return;
      }
      header := header.(endTime := now);
      RewriteHeader();
      recording := false;
      FileStartsWithMagic(header, startTopics, written);
    }

    /** The seek to the front and the write of the header over the old one. */
    method RewriteHeader()
      requires HeaderShape(header) && HeaderShape(startHeader) && file == FileOf(startHeader, startTopics, written)
      modifies this`file, this`put
      ensures file == FileOf(header, startTopics, written) && |file| == |old(file)|
      ensures forall k | HEADER_SIZE <= k < |file| :: file[k] == old(file)[k]
    {
      HeaderRewritten(startHeader, header, startTopics, written);
      put := 0;
      file := Overwrite(file, put, EncodeHeader(header));
    }

    method GetMessageCount() returns (count: nat)
      requires Valid()
      ensures recording ==> count == |written| % TWO32
    {
      count := header.messageCount;
    }
  }

  /** The bytes of the file at every moment of a recording: `start` wrote the header and the topics. */
  lemma FileWhileRecording(recorder: BagRecorder)
    requires recorder.Valid() && recorder.recording
    ensures var file, h := recorder.file, recorder.startHeader;
      && |file| >= 56 && file[0..9] == [76, 87, 73, 80, 67, 48, 48, 49, 0] && file[12..16] == [1, 0, 0, 0]
      && file[16..24] == ToLE(h.startTime, 8) && file[24..32] == ToLE(h.endTime, 8)
      && file[32..36] == ToLE(h.messageCount, 4)
      && file[36..40] == ToLE(|recorder.startTopics| % 0x1_0000_0000, 4)
      && file[56..] == EncodeTopics(recorder.startTopics) + EncodeMessages(recorder.written)
  {
    OurFileLayout(recorder.startHeader, recorder.startTopics, recorder.written);
  }

  /** The bytes `stop` leaves behind. */
  lemma StoppedFile(recorder: BagRecorder)
    requires recorder.Valid()
    requires recorder.file == FileOf(recorder.header, recorder.startTopics, recorder.written)
    requires recorder.header.messageCount == |recorder.written| % 0x1_0000_0000
    ensures var file := recorder.file;
      && |file| >= 56 && file[0..9] == [76, 87, 73, 80, 67, 48, 48, 49, 0] && file[12..16] == [1, 0, 0, 0]
      && file[16..24] == ToLE(recorder.header.startTime, 8) && file[24..32] == ToLE(recorder.header.endTime, 8)
      && file[32..36] == ToLE(|recorder.written| % 0x1_0000_0000, 4)
      && file[36..40] == ToLE(|recorder.topics| % 0x1_0000_0000, 4)
      && file[56..] == EncodeTopics(recorder.startTopics) + EncodeMessages(recorder.written)
  {
    OurFileLayout(recorder.header, recorder.startTopics, recorder.written);
  }
}
