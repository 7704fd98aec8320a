/** `BagPlayer` in its own form: an input stream read step by step.

    `delivered` is the effect of the callback.  A read that does not find all its bytes consumes what
    is left and turns the stream bad; a variable it was meant to fill keeps an arbitrary value. */
module BagPlayback {
  import opened Bytes
  import opened BagFormat
  import opened BoundedFifo

  /** There is a whole header and it starts with the magic. */
  ghost predicate Recognised(file: seq<Byte>) {
    |file| >= HEADER_SIZE && DecodeHeader(file[..HEADER_SIZE]).magic[..8] == MAGIC
  }

  /** In bytes: 56 of them at least, the first eight spelling "LWIPC001". */
  lemma RecognisedMeans(file: seq<Byte>)
    ensures Recognised(file) <==> |file| >= 56 && file[..8] == [76, 87, 73, 80, 67, 48, 48, 49]
    ensures Recognised(file) ==> var h := DecodeHeader(file[..HEADER_SIZE]);
      && h.topicCount
      == file[36] as int + 0x100 * (file[37] as int) + 0x1_0000 * (file[38] as int) + 0x100_0000 * (file[39] as int)
      && h.version == FourFrom(file, 12) && h.messageCount == FourFrom(file, 32)
      && h.startTime == EightFrom(file, 16) && h.endTime == EightFrom(file, 24)
  {
    if |file| >= 56 {
      HeaderFields(file);
      assert file[0..9][..8] == file[..8];
    }
  }

  ghost function Onto(done: seq<Topic>, r: Option<(seq<Topic>, seq<Byte>)>): Option<(seq<Topic>, seq<Byte>)> {
    match r
    case None => None
    case Some((ts, rest)) => Some((done + ts, rest))
  }

  lemma OntoNothing(r: Option<(seq<Topic>, seq<Byte>)>)
    ensures Onto([], r) == r
  {
    if r.Some? {
      assert [] + r.value.0 == r.value.0;
    }
  }

  lemma OneTopicFirst(bs: seq<Byte>, left: nat, less: nat)
    requires left == less + 1
    ensures ReadTopic(bs).None? ==> ReadTopics(bs, left) == None
    ensures ReadTopic(bs).Some? ==>
      var (t, rest) := ReadTopic(bs).value;
      ReadTopics(bs, left) == Onto([t], ReadTopics(rest, less))
  {
    assert less == left - 1;
  }

  lemma OntoTwice(done: seq<Topic>, t: Topic, r: Option<(seq<Topic>, seq<Byte>)>)
    ensures Onto(done, Onto([t], r)) == Onto(done + [t], r)
  {
    if r.Some? {
      assert done + ([t] + r.value.0) == done + [t] + r.value.0;
    }
  }

  lemma OneTopicFurther(done: seq<Topic>, bs: seq<Byte>, left: nat, less: nat)
    requires left == less + 1
    ensures ReadTopic(bs).None? ==> Onto(done, ReadTopics(bs, left)) == None
    ensures ReadTopic(bs).Some? ==>
      var (t, rest) := ReadTopic(bs).value;
      Onto(done, ReadTopics(bs, left)) == Onto(done + [t], ReadTopics(rest, less))
  {
    OneTopicFirst(bs, left, less);
    if ReadTopic(bs).Some? {
      var (t, rest) := ReadTopic(bs).value;
      OntoTwice(done, t, ReadTopics(rest, less));
    }
  }

  /** What other threads do while a message that has been read waits for its time, or while the
      callback has it.  A pause during the callback costs nothing and counts as undisturbed. */
  datatype Wait = Undisturbed | Paused | Stopped | StoppedInCallback

  /** The messages of a stream that reach the callback when `waits(k)` befalls the k-th one: a pause
      during its wait loses the message, a stop ends the playback. */
  ghost function Heard(ms: seq<Message>, waits: nat -> Wait, k: nat): seq<Message> {
    if |ms| == 0 then []
    else
      match waits(k)
      case Undisturbed => [ms[0]] + Heard(ms[1..], waits, k + 1)
      case Paused => Heard(ms[1..], waits, k + 1)
      case Stopped => []
      case StoppedInCallback => [ms[0]]
  }

  lemma {:induction false} NoMoreThanThereIs(ms: seq<Message>, waits: nat -> Wait, k: nat)
    ensures |Heard(ms, waits, k)| <= |ms|
  {
    if |ms| > 0 {
      NoMoreThanThereIs(ms[1..], waits, k + 1);
    }
  }

  /** Playback goes on to message `i` exactly when nobody stops it before. */
  ghost predicate Reached(waits: nat -> Wait, k: nat, i: nat) {
    forall j | k <= j < i :: waits(j) == Undisturbed || waits(j) == Paused
  }

  /** One message more in the stream: it is heard exactly when playback gets to it and its own wait is
      not disturbed. */
  lemma {:induction false} HeardOneMore(ms: seq<Message>, m: Message, waits: nat -> Wait, k: nat)
    ensures var i := k + |ms|;
      Heard(ms + [m], waits, k)
      == Heard(ms, waits, k)
         + (if Reached(waits, k, i) && (waits(i) == Undisturbed || waits(i) == StoppedInCallback) then [m] else [])
  {
    if |ms| == 0 {
      assert ms + [m] == [m] && Heard([], waits, k + 1) == [];
    } else {
      TailOfAppend(ms, m);
      HeardOneMore(ms[1..], m, waits, k + 1);
      var i := k + |ms|;
      assert Reached(waits, k, i) <==> (waits(k) == Undisturbed || waits(k) == Paused) && Reached(waits, k + 1, i);
    }
  }

  /** No message is paused away or stopped short; a stop after the last one does no harm. */
  ghost predicate NothingLost(count: nat, waits: nat -> Wait, k: nat) {
    forall i | k <= i < k + count ::
      waits(i) == Undisturbed || (i == k + count - 1 && waits(i) == StoppedInCallback)
  }

  /** Playback is complete exactly when nobody pauses or stops it during the wait of a message, or
      stops it before the last. */
  lemma {:induction false} HeardAllIff(ms: seq<Message>, waits: nat -> Wait, k: nat)
    ensures Heard(ms, waits, k) == ms <==> NothingLost(|ms|, waits, k)
  {
    if |ms| > 0 {
      HeardAllIff(ms[1..], waits, k + 1);
      NoMoreThanThereIs(ms[1..], waits, k + 1);
      assert ms == [ms[0]] + ms[1..];
      if NothingLost(|ms|, waits, k) {
        assert waits(k) == Undisturbed || |ms| == 1;
      }
    }
  }

  /** One turn of the playback loop, as the specification sees it. */
  lemma OneMessageFurther(done: seq<Message>, m: Message, later: seq<Message>, waits: nat -> Wait, k: nat)
    ensures done + Heard([m] + later, waits, k)
         == match waits(k)
            case Undisturbed => done + [m] + Heard(later, waits, k + 1)
            case Paused => done + Heard(later, waits, k + 1)
            case Stopped => done
            case StoppedInCallback => done + [m]
  {
    assert ([m] + later)[1..] == later;
    assert done + ([m] + Heard(later, waits, k + 1)) == done + [m] + Heard(later, waits, k + 1);
  }

  class BagPlayer {
    var file: seq<Byte>
    var isOpen: bool
    var good: bool
    var pos: nat
    var header: Header
    var topics: seq<Topic>
    var hasCallback: bool
    var playing: bool
    var delivered: seq<Message>

    ghost predicate Valid()
      reads this
    {
      pos <= |file|
    }

    /** What reads will still find: nothing once the stream has turned bad. */
    ghost function Rest(): seq<Byte>
      reads this
      requires Valid()
    {
      file[pos..]
    }

    constructor (blank: Header)
      ensures Valid() && !isOpen && topics == [] && delivered == [] && !playing && !hasCallback
    {
      file, isOpen, good, pos, topics, delivered := [], false, false, 0, [], [];
      header, playing, hasCallback := blank, false, false;
    }

    method SetCallback()
      modifies this`hasCallback
      ensures hasCallback
    {
      hasCallback := true;
    }

    /** `file_.read(buf, n).good()`: on success the next `n` bytes; on failure the bytes that were
        left, or none if the stream was already bad. */
    method ReadBytes(n: nat) returns (bs: seq<Byte>)
      requires Valid()
      modifies this`good, this`pos
      ensures Valid() && (good <==> old(good) && n <= |old(Rest())|)
      ensures good ==> bs == old(Rest())[..n] && Rest() == old(Rest())[n..]
      ensures |bs| <= n
    {
      if !good {
        return [];
      }
      if pos + n <= |file| {
        bs := file[pos..pos + n];
        pos := pos + n;
      } else {
        bs := file[pos..];
        pos, good := |file|, false;
      }
    }

    method ReadU32() returns (v: U32)
      requires Valid()
      modifies this`good, this`pos
      ensures Valid() && (good <==> old(good) && 4 <= |old(Rest())|)
      ensures good ==> v == FromLE(old(Rest())[..4]) && Rest() == old(Rest())[4..]
    {
      var bs := ReadBytes(4);
      if good {
        Spans();
        v := FromLE(bs);
      } else {
        v := *;
      }
    }

    /** A length and that many bytes.  A string whose bytes are missing is padded with zeros. */
    method ReadString() returns (s: seq<Byte>)
      requires Valid()
      modifies this`good, this`pos
      ensures Valid() && (good <==> old(good) && ReadBlock(old(Rest())).Some?)
      ensures good ==> Some((s, Rest())) == ReadBlock(old(Rest()))
    {
      ghost var before := Rest();
      var n := ReadU32();
      var bs := ReadBytes(n);
      if good {
        assert before[4..][..n] == before[4..4 + n] && before[4..][n..] == before[4 + n..];
      }
      s := if |bs| == n then bs else bs + seq(n - |bs|, _ => 0);
    }

    method ReadTopicEntry() returns (t: Topic)
      requires Valid()
      modifies this`good, this`pos
      ensures Valid() && (good <==> old(good) && ReadTopic(old(Rest())).Some?)
      ensures good ==> Some((t, Rest())) == ReadTopic(old(Rest()))
    {
      var name := ReadString();
      var kind := ReadString();
      var schema := ReadString();
      t := Topic(name, kind, schema);
    }

    method Close()
      modifies this`isOpen, this`topics, this`playing
      ensures !isOpen && topics == [] && !playing
    {
      isOpen, topics, playing := false, [], false;
    }

    /** `content` is the file at the path, or None if it cannot be opened.  Accepted exactly when the
        header is there with its magic.  A complete topic section is read as `Opened` says; a topic
        section cut short is still accepted, with some list of `topic_count` topics. */
    method Open(content: Option<seq<Byte>>) returns (ok: bool)
      modifies this
      ensures Valid() && delivered == old(delivered) && hasCallback == old(hasCallback)
      ensures ok <==> content.Some? && Recognised(content.value)
      ensures ok <==> && content.Some? && |content.value| >= 56
                      && content.value[..8] == [76, 87, 73, 80, 67, 48, 48, 49]
      ensures ok ==> var c := content.value;
        header.topicCount
        == c[36] as int + 0x100 * (c[37] as int) + 0x1_0000 * (c[38] as int) + 0x100_0000 * (c[39] as int)
      ensures ok ==> var c := content.value;
        && header.version == FourFrom(c, 12) && header.messageCount == FourFrom(c, 32)
        && header.startTime == EightFrom(c, 16) && header.endTime == EightFrom(c, 24)
      ensures ok == isOpen
      ensures ok ==> header == DecodeHeader(content.value[..HEADER_SIZE]) && |topics| == header.topicCount
      ensures ok ==> (good <==> Opened(content.value).Some?)
      ensures ok && good ==> Opened(content.value) == Some((header, topics, Rest()))
    {
      Close();
      pos, good, file := 0, false, [];
      if content.None? {
        return false;
      }
      RecognisedMeans(content.value);
      file, good, isOpen := content.value, true, true;
      ok := ReadHeader();
      if !ok {
        isOpen := false;
        return false;
      }
      topics := [];
      ReadTopicSection(header.topicCount);
    }

    /** The header bytes, then the magic test; a short file leaves an arbitrary header behind. */
    method ReadHeader() returns (ok: bool)
      requires Valid() && good && pos == 0
      modifies this`header, this`good, this`pos
      ensures Valid()
      ensures ok <==> Recognised(file)
      ensures ok ==> good && header == DecodeHeader(file[..HEADER_SIZE]) && Rest() == file[HEADER_SIZE..]
    {
      var bs := ReadBytes(HEADER_SIZE);
      if !good {
        header := *;
        return false;
      }
      header := DecodeHeader(bs);
      return header.magic[..8] == MAGIC;
    }

    /** What reading `left` more topics would make of the topic list and the stream. */
    ghost function Pending(left: nat): Option<(seq<Topic>, seq<Byte>)>
      reads this
      requires Valid()
    {
      if good then Onto(topics, ReadTopics(Rest(), left)) else None
    }

    method ReadNextTopic(ghost left: nat, ghost less: nat)
      requires Valid() && left == less + 1
      modifies this`good, this`pos, this`topics
      ensures Valid() && |topics| == |old(topics)| + 1
      ensures Pending(less) == old(Pending(left))
    {
      OneTopicFurther(topics, Rest(), left, less);
      var t := ReadTopicEntry();
      topics := topics + [t];
    }

    /** The loop over the topic section. */
    method ReadTopicEntries(count: nat)
      requires Valid()
      modifies this`good, this`pos, this`topics
      ensures Valid() && |topics| == |old(topics)| + count
      ensures Pending(0) == old(Pending(count))
    {
      ghost var expected, left := Pending(count), count;
      var i := 0;
      while i < count
        invariant Valid() && 0 <= i <= count && |topics| == |old(topics)| + i
        invariant i + left == count && Pending(left) == expected
      {
        ghost var less := left - 1;
        ReadNextTopic(left, less);
        left := less;
        i := i + 1;
      }
    }

    method ReadTopicSection(count: nat)
      requires Valid() && good && topics == []
      modifies this`good, this`pos, this`topics
      ensures Valid() && |topics| == count
      ensures good <==> ReadTopics(old(Rest()), count).Some?
      ensures good ==> ReadTopics(old(Rest()), count) == Some((topics, Rest()))
    {
      OntoNothing(ReadTopics(Rest(), count));
      ReadTopicEntries(count);
      assert topics + [] == topics;
    }

    /** Refused without a file or a callback.  Otherwise takes every message the stream still holds,
        in order, and hands on those that are not paused away or stopped. */
    method Play(waits: nat -> Wait) returns (ok: bool)
      requires Valid()
      modifies this`playing, this`good, this`pos, this`delivered
      ensures Valid() && (ok <==> isOpen && hasCallback)
      ensures delivered
           == old(delivered) + (if ok && old(good) then Heard(Playback(old(Rest())), waits, 0) else [])
      ensures ok ==> !playing
      ensures ok && (forall k :: waits(k) == Undisturbed || waits(k) == Paused) ==> !good
    {
      if !isOpen || !hasCallback {
        return false;
      }
      playing := true;
      ghost var expected := delivered + (if good then Heard(Playback(Rest()), waits, 0) else []);
      var k := 0;
      while playing && good
        invariant Valid()
        invariant expected == delivered + (if playing && good then Heard(Playback(Rest()), waits, k) else [])
        invariant !playing ==> exists i :: waits(i) == Stopped || waits(i) == StoppedInCallback
        decreases if good then |Rest()| + 1 else 0, playing
      {
        var message := ReadMessageStep();
        if message.None? {
          break;
        }
        OneMessageFurther(delivered, message.value, Playback(Rest()), waits, k);
        playing := waits(k) != Stopped;
        if playing && waits(k) != Paused {
          delivered := delivered + [message.value];
          playing := waits(k) != StoppedInCallback;
        }
        k := k + 1;
      }
      playing := false;
      return true;
    }

    /** The reads of one turn of the loop of `play`, each followed by its check. */
    method ReadMessageStep() returns (result: Option<Message>)
      requires Valid() && good
      modifies this`good, this`pos
      ensures Valid() && (good <==> ReadMessage(old(Rest())).Some?) && (result.Some? <==> good)
      ensures good ==> ReadMessage(old(Rest())) == Some((result.value, Rest()))
    {
      Spans();
      var stamp := ReadBytes(8);
      if !good {
        return None;
      }
      var topic := ReadString();
      if !good {
        return None;
      }
      var data := ReadString();
      if !good {
        return None;
      }
      return Some(Message(FromLE(stamp), topic, data));
    }
  }
}
