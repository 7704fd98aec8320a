/** Recorder and player together. */
module BagSessions {
  import opened Bytes
  import opened BagFormat
  import opened BagRecording
  import opened BagPlayback
  import opened BoundedFifo

  /** Recording any messages, stopping, cutting the file anywhere after its topic section, opening
      and playing it: the topics come back, and exactly the messages complete in what is left. */
  method RecordThenPlay(recorder: BagRecorder, player: BagPlayer, messages: seq<Message>,
                        startNow: U64, stopNow: U64, length: nat) returns (replayed: seq<Message>)
    requires recorder.Valid() && !recorder.recording && recorder.outputPath != []
    requires |recorder.topics| < TWO32
    requires length >= HEADER_SIZE + |EncodeTopics(TopicsOf(recorder.topics))|
    modifies recorder, player
    ensures var ts := TopicsOf(old(recorder.topics));
      && player.topics == AllTopicsStored(ts)
      && player.header == recorder.header
      && player.header.startTime == startNow && player.header.endTime == stopNow
      && player.header.messageCount == |messages| % TWO32 && player.header.topicCount == |ts|
      && replayed == AllStored(messages[..Complete(messages, length - HEADER_SIZE - |EncodeTopics(ts)|)])
    ensures length >= |recorder.file| ==> replayed == AllStored(messages)
  {
    ghost var ts := TopicsOf(recorder.topics);
    RecordAll(recorder, messages, startNow, stopNow);
    replayed := PlayFile(player, recorder.header, ts, messages, Cropped(recorder.file, length), length);
    if length >= |recorder.file| {
      FileRoundTrip(recorder.header, ts, messages, length);
      assert messages[..|messages|] == messages;
    }
  }

  function Cropped(file: seq<Byte>, length: nat): (r: seq<Byte>)
    ensures r == Take(file, length)
  {
    if length <= |file| then file[..length] else file
  }

  /** The topic each message bears. */
  ghost function Names(ms: seq<Message>): (names: seq<seq<Byte>>)
    ensures |names| == |ms| && forall k | 0 <= k < |ms| :: names[k] == ms[k].topic
  {
    seq(|ms|, k requires 0 <= k < |ms| => ms[k].topic)
  }

  lemma OneMoreName(ms: seq<Message>, k: nat, name: seq<Byte>)
    requires k < |ms|
    ensures multiset(Names(ms[..k + 1]))[name]
         == multiset(Names(ms[..k]))[name] + (if ms[k].topic == name then 1 else 0)
  {
    assert Names(ms[..k + 1]) == Names(ms[..k]) + [ms[k].topic];
  }

  /** Each topic keeps what it was and has counted, in 32 bits, the messages that bear its name. */
  ghost predicate Counted(before: seq<TopicInfo>, now: seq<TopicInfo>, ms: seq<Message>) {
    && |now| == |before|
    && forall i | 0 <= i < |now| ::
         && now[i].topic == before[i].topic
         && now[i].messageCount
         == (before[i].messageCount + multiset(Names(ms))[now[i].topic.name]) % 0x1_0000_0000
  }

  lemma NothingCounted(infos: seq<TopicInfo>)
    ensures Counted(infos, infos, [])
  {
    assert multiset(Names([])) == multiset{};
  }

  lemma OneMoreCounted(before: seq<TopicInfo>, now: seq<TopicInfo>, next: seq<TopicInfo>, ms: seq<Message>, k: nat)
    requires k < |ms| && Counted(before, now, ms[..k]) && |next| == |now|
    requires forall i | 0 <= i < |next| ::
      && next[i].topic == now[i].topic
      && next[i].messageCount
      == if next[i].topic.name == ms[k].topic then (now[i].messageCount + 1) % 0x1_0000_0000 else now[i].messageCount
    ensures Counted(before, next, ms[..k + 1])
  {
    forall i | 0 <= i < |next|
      ensures next[i].messageCount
           == (before[i].messageCount + multiset(Names(ms[..k + 1]))[next[i].topic.name]) % 0x1_0000_0000
    {
      OneMoreName(ms, k, next[i].topic.name);
      CountWraps(before[i].messageCount + multiset(Names(ms[..k]))[next[i].topic.name]);
    }
  }

  method RecordNext(recorder: BagRecorder, messages: seq<Message>, k: nat, ghost before: seq<TopicInfo>)
    requires recorder.Valid() && recorder.recording && k < |messages| && recorder.written == messages[..k]
    requires Counted(before, recorder.topics, messages[..k])
    modifies recorder
    ensures recorder.Valid() && recorder.recording && recorder.written == messages[..k + 1]
    ensures Counted(before, recorder.topics, messages[..k + 1])
    ensures recorder.startTopics == old(recorder.startTopics)
    ensures recorder.header.startTime == old(recorder.header.startTime)
  {
    assert messages[..k + 1] == messages[..k] + [messages[k]];
    ghost var now := recorder.topics;
    var ok := recorder.Record(messages[k].topic, messages[k].timestamp, messages[k].data);
    OneMoreCounted(before, now, recorder.topics, messages, k);
  }

  method RecordMessages(recorder: BagRecorder, messages: seq<Message>)
    requires recorder.Valid() && recorder.recording && recorder.written == []
    modifies recorder
    ensures recorder.Valid() && recorder.recording && recorder.written == messages
    ensures recorder.startTopics == old(recorder.startTopics) && |recorder.topics| == |old(recorder.topics)|
    ensures recorder.header.startTime == old(recorder.header.startTime)
    ensures forall i | 0 <= i < |recorder.topics| ::
      && recorder.topics[i].topic == old(recorder.topics)[i].topic
      && recorder.topics[i].messageCount
      == (old(recorder.topics)[i].messageCount + multiset(Names(messages))[recorder.topics[i].topic.name])
         % 0x1_0000_0000
  {
    NothingCounted(recorder.topics);
    var i := 0;
    assert messages[..0] == [];
    while i < |messages|
      invariant recorder.Valid() && recorder.recording && 0 <= i <= |messages|
      invariant recorder.written == messages[..i]
      invariant recorder.startTopics == old(recorder.startTopics)
      invariant Counted(old(recorder.topics), recorder.topics, messages[..i])
      invariant recorder.header.startTime == old(recorder.header.startTime)
    {
      RecordNext(recorder, messages, i, old(recorder.topics));
      i := i + 1;
    }
    assert messages[..i] == messages;
  }

  method RecordAll(recorder: BagRecorder, messages: seq<Message>, startNow: U64, stopNow: U64)
    requires recorder.Valid() && !recorder.recording && recorder.outputPath != []
    requires |recorder.topics| < TWO32
    modifies recorder
    ensures recorder.HeaderOk() && recorder.header.topicCount == |old(recorder.topics)|
    ensures recorder.file == FileOf(recorder.header, TopicsOf(old(recorder.topics)), messages)
    ensures recorder.header.messageCount == |messages| % TWO32
    ensures recorder.header.startTime == startNow && recorder.header.endTime == stopNow
  {
    var started := recorder.Start(startNow, true);
    RecordMessages(recorder, messages);
    recorder.Stop(stopNow);
  }

  /** Opening a file that is recognised and playing it undisturbed delivers what the format says. */
  method OpenAndPlay(player: BagPlayer, file: seq<Byte>) returns (replayed: seq<Message>)
    requires Recognised(file)
    modifies player
    ensures player.isOpen && player.header == DecodeHeader(file[..HEADER_SIZE])
    ensures |player.topics| == player.header.topicCount
    ensures replayed == Delivered(file)
    ensures Opened(file).Some? ==> player.topics == Opened(file).value.1
  {
    player.SetCallback();
    var accepted := player.Open(Some(file));
    var before := player.delivered;
    ghost var left := Playback(player.Rest());
    var calm: nat -> Wait := _ => Undisturbed;
    HeardAllIff(left, calm, 0);
    var played := player.Play(calm);
    replayed := player.delivered[|before|..];
  }

  method PlayFile(player: BagPlayer, ghost h: Header, ghost ts: seq<Topic>, ghost ms: seq<Message>,
                  file: seq<Byte>, ghost length: nat) returns (replayed: seq<Message>)
    requires HeaderShape(h) && h.magic[..8] == MAGIC && h.topicCount == |ts|
    requires length >= |Front(h, ts)| && file == Take(FileOf(h, ts, ms), length)
    modifies player
    ensures player.header == h && player.topics == AllTopicsStored(ts)
    ensures replayed == AllStored(ms[..Complete(ms, length - |Front(h, ts)|)])
  {
    FileRoundTrip(h, ts, ms, length);
    OpenedIsRecognised(file);
    OpenedCountsTopics(file);
    replayed := OpenAndPlay(player, file);
  }

  lemma OpenedIsRecognised(file: seq<Byte>)
    requires Opened(file).Some?
    ensures Recognised(file)
  {
  }

  /** A recording that never reached `stop`: whatever truncation of the file survives after its topic
      section, its topics and the messages that are complete in it play back, if and only if the topics
      could be counted. */
  lemma CrashLosesOnlyTheTail(recorder: BagRecorder, length: nat)
    requires recorder.Valid() && recorder.recording
    requires length >= |Front(recorder.startHeader, recorder.startTopics)|
    ensures var o := Opened(Take(recorder.file, length));
      (&& o.Some? && o.value.0 == recorder.startHeader && o.value.1 == AllTopicsStored(recorder.startTopics)
       && Playback(o.value.2) == AllStored(recorder.written[..
            Complete(recorder.written, length - |Front(recorder.startHeader, recorder.startTopics)|)]))
      <==> |recorder.startTopics| < TWO32
  {
    CountFits(|recorder.startTopics|);
    FileRoundTrip(recorder.startHeader, recorder.startTopics, recorder.written, length);
  }

  lemma CountFits(n: nat)
    ensures n % TWO32 == n <==> n < TWO32
  {
  }

  /** Topics survive a recording exactly when `addTopic` left the count alone while it ran: the count
      that `stop` writes is that of the recorder's topics, the topics in the file those at `start`. */
  lemma TopicsSurviveIff(recorder: BagRecorder)
    requires recorder.Valid()
    requires recorder.file == FileOf(recorder.header, recorder.startTopics, recorder.written)
    ensures var o := Opened(recorder.file);
      (o.Some? && o.value.1 == AllTopicsStored(recorder.startTopics))
      <==> |recorder.topics| % TWO32 == |recorder.startTopics|
  {
    TopicsComeBackIff(recorder.header, recorder.startTopics, recorder.written);
  }

  /** Messages fare no better: if a topic was added, and the 32-bit count has not wrapped around, they
      come back only if there were none. */
  lemma MessagesSurviveIff(recorder: BagRecorder)
    requires recorder.Valid() && |recorder.topics| % TWO32 >= |recorder.startTopics|
    requires recorder.file == FileOf(recorder.header, recorder.startTopics, recorder.written)
    ensures Delivered(recorder.file) == AllStored(recorder.written)
      <==> |recorder.topics| % TWO32 == |recorder.startTopics| || recorder.written == []
  {
    MessagesComeBackIff(recorder.header, recorder.startTopics, recorder.written);
  }

  /** The whole story of a topic offered after `start`: if it is taken, the finished bag is accepted with
      a topic too many and whatever was recorded does not play back. */
  method LateTopicLosesMessages(recorder: BagRecorder, player: BagPlayer, late: Topic, messages: seq<Message>)
      returns (added: bool, replayed: seq<Message>)
    requires recorder.Valid() && !recorder.recording && recorder.outputPath != []
    requires |recorder.topics| + 1 < TWO32
    modifies recorder, player
    ensures added <==> forall i | 0 <= i < |old(recorder.topics)| :: old(recorder.topics)[i].topic.name != late.name
    ensures player.isOpen && |player.topics| == |old(recorder.topics)| + (if added then 1 else 0)
    ensures replayed == AllStored(messages) <==> !added || messages == []
  {
    added := RecordWithLateTopic(recorder, late, messages);
    ghost var h, ts := recorder.header, recorder.startTopics;
    MessagesComeBackIff(h, ts, messages);
    FileStartsWithItsHeader(h, ts, messages);
    replayed := OpenAndPlay(player, recorder.file);
  }

  method RecordWithLateTopic(recorder: BagRecorder, late: Topic, messages: seq<Message>) returns (added: bool)
    requires recorder.Valid() && !recorder.recording && recorder.outputPath != []
    requires |recorder.topics| + 1 < TWO32
    modifies recorder
    ensures added <==> forall i | 0 <= i < |old(recorder.topics)| :: old(recorder.topics)[i].topic.name != late.name
    ensures recorder.HeaderOk() && |recorder.startTopics| == |old(recorder.topics)|
    ensures recorder.header.topicCount == |old(recorder.topics)| + (if added then 1 else 0)
    ensures recorder.file == FileOf(recorder.header, recorder.startTopics, messages)
  {
    var started := recorder.Start(0, true);
    added := recorder.AddTopic(late.name, late.kind, late.schema);
    RecordMessages(recorder, messages);
    recorder.Stop(0);
    CountFits(|recorder.topics|);
  }

  /** A concrete spoiled bag without messages: the topic added after `start` is counted by `stop` but is
      not in the file; the player accepts the file, runs off its end looking for the topic, and reports
      one topic all the same. */
  method LateTopicSpoilsTheBag(recorder: BagRecorder, player: BagPlayer, name: seq<Byte>)
    requires recorder.Valid() && !recorder.recording && recorder.outputPath != [] && recorder.topics == []
    modifies recorder, player
    ensures recorder.startTopics == [] && |recorder.topics| == 1
    ensures recorder.HeaderOk() && recorder.file == FileOf(recorder.header, [], [])
    ensures Opened(recorder.file).None?
    ensures player.isOpen && |player.topics| == 1 && !player.good
  {
    var started := recorder.Start(0, true);
    var added := recorder.AddTopic(name, [], []);
    recorder.Stop(0);
    NoTopicToFind(recorder.header);
    FileStartsWithItsHeader(recorder.header, [], []);
    var accepted := player.Open(Some(recorder.file));
  }

  lemma NoTopicToFind(h: Header)
    requires HeaderShape(h) && h.topicCount == 1
    ensures Opened(FileOf(h, [], [])).None?
  {
    FileStartsWithItsHeader(h, [], []);
  }
}
