/**
 * Sequences of events applied to the recording state: the invariant every
 * event keeps, and what runs of frames do to a session (growth while
 * recording, the frame cap's countdown, the flush after stopping).
 */
module RecordingRuns {
  import opened Wrappers
  import opened Recording

  datatype Event<T> = FrameEvent(frame: Frame<T>, env: Env) | PlayStopPressed | CapPressed

  function Step<T>(s: State<T>, e: Event<T>, toDegrees: T -> T): State<T> {
    match e
    case FrameEvent(f, env) => OnFrame(s, f, env, toDegrees).next
    case PlayStopPressed => PressPlayStop(s)
    case CapPressed => PressCap(s)
  }

  function Run<T>(s: State<T>, es: seq<Event<T>>, toDegrees: T -> T): State<T>
    decreases |es|
  {
    if es == [] then s else Run(Step(s, es[0], toDegrees), es[1..], toDegrees)
  }

  /**
   * What holds of every reachable state: the icon shows "stop.fill" exactly
   * while recording, the cap is either disarmed or 1000, a session has a
   * folder exactly when it has entries, an unnamed session has counted no
   * frames, and there are never more entries than counted frames.
   */
  predicate Valid<T>(s: State<T>) {
    && (s.recordState <==> s.showImage == StopFill)
    && (s.recordFrames == NoCap || s.recordFrames == CapFrames)
    && (s.folderName.None? <==> s.saveDict == map[])
    && (s.folderName.None? ==> s.frameNum == 0)
    && |s.saveDict| <= s.frameNum
  }

  lemma InitialValid<T>()
    ensures Valid(Initial<T>()) && NoSession(Initial<T>())
  {
  }

  lemma StepValid<T>(s: State<T>, e: Event<T>, toDegrees: T -> T)
    requires Valid(s)
    ensures Valid(Step(s, e, toDegrees))
  {
    if e.FrameEvent? && s.recordState {
      var r := RecordFrame(s, e.frame, e.env, toDegrees).next;
      assert r.saveDict.Keys == s.saveDict.Keys + {e.frame.timeStamp};
      assert |r.saveDict.Keys| <= |s.saveDict.Keys| + 1;
    }
  }

  lemma {:induction false} RunValid<T>(s: State<T>, es: seq<Event<T>>, toDegrees: T -> T)
    requires Valid(s)
    ensures Valid(Run(s, es, toDegrees))
    decreases |es|
  {
    if es != [] {
      StepValid(s, es[0], toDegrees);
      RunValid(Step(s, es[0], toDegrees), es[1..], toDegrees);
    }
  }

  lemma {:induction false} RunAppend<T>(s: State<T>, a: seq<Event<T>>, b: seq<Event<T>>, toDegrees: T -> T)
    ensures Run(s, a + b, toDegrees) == Run(Run(s, a, toDegrees), b, toDegrees)
    decreases |a|
  {
    if a != [] {
      assert a + b != [];
      assert (a + b)[0] == a[0] && (a + b)[1..] == a[1..] + b;
      RunAppend(Step(s, a[0], toDegrees), a[1..], b, toDegrees);
    } else {
      assert a + b == b;
    }
  }

  /**
   * On a reachable state, a frame arriving while idle always leaves no
   * session behind, and writes a manifest exactly when there was one.
   */
  lemma IdleFrameEndsSession<T>(s: State<T>, f: Frame<T>, env: Env, toDegrees: T -> T)
    requires Valid(s) && !s.recordState
    ensures NoSession(OnFrame(s, f, env, toDegrees).next)
    ensures OnFrame(s, f, env, toDegrees).effect.ManifestFile? <==> !NoSession(s)
  {
  }

  predicate OnlyFrames<T>(es: seq<Event<T>>) {
    forall i :: 0 <= i < |es| ==> es[i].FrameEvent?
  }

  /** The timestamps of the frames among `es`. */
  function Stamps<T>(es: seq<Event<T>>): set<string>
    decreases |es|
  {
    if es == [] then {}
    else (if es[0].FrameEvent? then {es[0].frame.timeStamp} else {}) + Stamps(es[1..])
  }

  /**
   * Recording with no cap never stops by itself: every frame is counted and
   * adds its timestamp key, and a named session keeps its name.
   */
  lemma {:induction false} UncappedRecording<T>(s: State<T>, es: seq<Event<T>>, toDegrees: T -> T)
    requires s.recordState && s.recordFrames == NoCap && OnlyFrames(es)
    ensures var r := Run(s, es, toDegrees);
      && r.recordState && r.recordFrames == NoCap && r.showImage == s.showImage
      && r.frameNum == s.frameNum + |es|
      && r.saveDict.Keys == s.saveDict.Keys + Stamps(es)
      && (s.folderName.Some? ==> r.folderName == s.folderName)
      && (es != [] ==> r.folderName.Some?)
    decreases |es|
  {
    if es != [] {
      var e := es[0];
      var s' := Step(s, e, toDegrees);
      assert s' == RecordFrame(s, e.frame, e.env, toDegrees).next;
      UncappedRecording(s', es[1..], toDegrees);
      KeysGrow(s.saveDict.Keys, e.frame.timeStamp, Stamps(es[1..]));
    }
  }

  lemma KeysGrow(keys: set<string>, k: string, rest: set<string>)
    ensures (keys + {k}) + rest == keys + ({k} + rest)
  {
  }

  /** No later frame among `es` carries the timestamp of frame `i`. */
  predicate LastWithStamp<T>(es: seq<Event<T>>, i: int)
    requires OnlyFrames(es) && 0 <= i < |es|
  {
    forall j :: i < j < |es| ==> es[j].frame.timeStamp != es[i].frame.timeStamp
  }

  /**
   * `d` holds, under each timestamp among `es`, the record of the last frame
   * carrying that timestamp.
   */
  ghost predicate HoldsRecords<T>(d: Dict<T>, es: seq<Event<T>>, toDegrees: T -> T)
    requires OnlyFrames(es)
  {
    forall i :: 0 <= i < |es| && LastWithStamp(es, i) ==>
      es[i].frame.timeStamp in d && d[es[i].frame.timeStamp] == FrameEntry(FrameRecord(es[i].frame, toDegrees))
  }

  /** Every timestamp among `es` comes from one of its frames. */
  lemma {:induction false} StampsWitness<T>(es: seq<Event<T>>, k: string)
    requires OnlyFrames(es) && k in Stamps(es)
    ensures exists j :: 0 <= j < |es| && es[j].frame.timeStamp == k
    decreases |es|
  {
    if k != es[0].frame.timeStamp {
      StampsWitness(es[1..], k);
      var j :| 0 <= j < |es[1..]| && es[1..][j].frame.timeStamp == k;
      assert es[j + 1] == es[1..][j];
    }
  }

  lemma OnlyFramesTail<T>(es: seq<Event<T>>)
    requires OnlyFrames(es) && es != []
    ensures es[0].FrameEvent? && OnlyFrames(es[1..])
  {
    assert es[0].FrameEvent?;
    forall j | 0 <= j < |es[1..]| ensures es[1..][j].FrameEvent? { assert es[1..][j] == es[j + 1]; }
  }

  /** While recording with no cap, an entry whose key no frame carries is left as it was. */
  lemma {:induction false} KeptEntries<T>(s: State<T>, es: seq<Event<T>>, toDegrees: T -> T)
    requires s.recordState && s.recordFrames == NoCap && OnlyFrames(es)
    ensures forall k :: k in s.saveDict && k !in Stamps(es) ==>
      k in Run(s, es, toDegrees).saveDict && Run(s, es, toDegrees).saveDict[k] == s.saveDict[k]
    decreases |es|
  {
    if es != [] {
      var e, rest := es[0], es[1..];
      var s' := Step(s, e, toDegrees);
      assert s' == RecordFrame(s, e.frame, e.env, toDegrees).next;
      OnlyFramesTail(es);
      KeptEntries(s', rest, toDegrees);
      assert Run(s, es, toDegrees) == Run(s', rest, toDegrees);
      assert Stamps(es) == {e.frame.timeStamp} + Stamps(rest);
    }
  }

  /**
   * Record in, record out: while recording with no cap, each timestamp's
   * entry is the record of the last frame carrying it.
   */
  lemma {:induction false} RecordedEntries<T>(s: State<T>, es: seq<Event<T>>, toDegrees: T -> T)
    requires s.recordState && s.recordFrames == NoCap && OnlyFrames(es)
    ensures HoldsRecords(Run(s, es, toDegrees).saveDict, es, toDegrees)
    decreases |es|
  {
    if es != [] {
      var e, rest := es[0], es[1..];
      var s' := Step(s, e, toDegrees);
      assert s' == RecordFrame(s, e.frame, e.env, toDegrees).next;
      OnlyFramesTail(es);
      RecordedEntries(s', rest, toDegrees);
      KeptEntries(s', rest, toDegrees);
      var d := Run(s', rest, toDegrees).saveDict;
      assert Run(s, es, toDegrees).saveDict == d;
      forall i | 0 <= i < |es| && LastWithStamp(es, i)
        ensures es[i].frame.timeStamp in d && d[es[i].frame.timeStamp] == FrameEntry(FrameRecord(es[i].frame, toDegrees))
      {
        if i == 0 {
          LastNotLater(es);
        } else {
          LastWithTail(es, i);
        }
      }
    }
  }

  /** A frame that is the last with its timestamp has it nowhere later. */
  lemma LastNotLater<T>(es: seq<Event<T>>)
    requires OnlyFrames(es) && es != [] && LastWithStamp(es, 0)
    ensures es[0].frame.timeStamp !in Stamps(es[1..])
  {
    OnlyFramesTail(es);
    if es[0].frame.timeStamp in Stamps(es[1..]) {
      StampsWitness(es[1..], es[0].frame.timeStamp);
    }
  }

  lemma LastWithTail<T>(es: seq<Event<T>>, i: int)
    requires OnlyFrames(es) && 0 < i < |es| && LastWithStamp(es, i)
    ensures OnlyFrames(es[1..]) && es[1..][i - 1] == es[i] && LastWithStamp(es[1..], i - 1)
  {
    OnlyFramesTail(es);
    var rest := es[1..];
    forall j | i - 1 < j < |rest| ensures rest[j].frame.timeStamp != rest[i - 1].frame.timeStamp {
      assert rest[j] == es[j + 1];
    }
  }

  /** Frames with distinct timestamps, none of them already a key. */
  predicate FreshStamps<T>(es: seq<Event<T>>, keys: set<string>)
    requires OnlyFrames(es)
  {
    && (forall i :: 0 <= i < |es| ==> es[i].frame.timeStamp !in keys)
    && (forall i, j :: 0 <= i < j < |es| ==> es[i].frame.timeStamp != es[j].frame.timeStamp)
  }

  lemma {:induction false} FreshStampsCount<T>(es: seq<Event<T>>, keys: set<string>)
    requires OnlyFrames(es) && FreshStamps(es, keys)
    ensures |Stamps(es)| == |es|
    ensures keys !! Stamps(es)
    decreases |es|
  {
    if es != [] {
      assert FreshStamps(es[1..], keys + {es[0].frame.timeStamp}) by {
        forall i | 0 <= i < |es[1..]|
          ensures es[1..][i].frame.timeStamp !in keys + {es[0].frame.timeStamp}
        {
          assert es[1..][i] == es[i + 1];
        }
      }
      FreshStampsCount(es[1..], keys + {es[0].frame.timeStamp});
    }
  }

  /**
   * With a cap armed above the count, recording goes on while the count is
   * below the cap and stops, disarming the cap, exactly when the count
   * reaches it.
   */
  lemma {:induction false} CapCountdown<T>(s: State<T>, es: seq<Event<T>>, toDegrees: T -> T)
    requires s.recordState && s.recordFrames != NoCap && OnlyFrames(es)
    requires s.frameNum < s.recordFrames && s.frameNum + |es| <= s.recordFrames
    ensures var r := Run(s, es, toDegrees);
      && r.frameNum == s.frameNum + |es|
      && (r.recordState <==> s.frameNum + |es| < s.recordFrames)
      && (r.recordFrames == NoCap <==> s.frameNum + |es| == s.recordFrames)
      && (s.frameNum + |es| < s.recordFrames ==> r.recordFrames == s.recordFrames)
    decreases |es|
  {
    if es != [] {
      var e := es[0];
      var s' := Step(s, e, toDegrees);
      assert s' == RecordFrame(s, e.frame, e.env, toDegrees).next;
      assert Run(s, es, toDegrees) == Run(s', es[1..], toDegrees);
      if s.frameNum + 1 == s.recordFrames {
        assert es[1..] == [];
        assert Run(s', es[1..], toDegrees) == s';
      } else {
        CapCountdown(s', es[1..], toDegrees);
      }
    }
  }

  /**
   * A cap armed when the count has already reached it never fires: the
   * comparison is for equality, so recording goes on frame after frame.
   */
  lemma {:induction false} LateCapNeverFires<T>(s: State<T>, es: seq<Event<T>>, toDegrees: T -> T)
    requires s.recordState && s.recordFrames != NoCap && s.frameNum >= s.recordFrames
    requires OnlyFrames(es)
    ensures var r := Run(s, es, toDegrees);
      r.recordState && r.recordFrames == s.recordFrames && r.frameNum == s.frameNum + |es|
    decreases |es|
  {
    if es != [] {
      var e := es[0];
      var s' := Step(s, e, toDegrees);
      assert s' == RecordFrame(s, e.frame, e.env, toDegrees).next;
      LateCapNeverFires(s', es[1..], toDegrees);
    }
  }

  /**
   * Once idle, frames never record: the first one ends any session, and the
   * state stays idle with no session and no cap.
   */
  lemma {:induction false} IdleFramesNeverRecord<T>(s: State<T>, es: seq<Event<T>>, toDegrees: T -> T)
    requires Valid(s) && !s.recordState && OnlyFrames(es) && es != []
    ensures var r := Run(s, es, toDegrees);
      !r.recordState && r.recordFrames == NoCap && NoSession(r)
    decreases |es|
  {
    var e := es[0];
    var s' := Step(s, e, toDegrees);
    IdleFrameEndsSession(s, e.frame, e.env, toDegrees);
    StepValid(s, e, toDegrees);
    if |es| > 1 {
      IdleFramesNeverRecord(s', es[1..], toDegrees);
    }
  }

  /**
   * Stopping and restarting with no frame in between resumes the same
   * session: no manifest is written and folder, count and entries carry on.
   */
  lemma StopThenPlayResumes<T>(s: State<T>)
    requires Valid(s) && s.recordState
    ensures PressPlayStop(PressPlayStop(s)) == s.(showInfo := [PressToRecord])
  {
  }

  lemma RunOne<T>(s: State<T>, e: Event<T>, toDegrees: T -> T)
    ensures Run(s, [e], toDegrees) == Step(s, e, toDegrees)
  {
    assert [e][1..] == [];
  }

  /**
   * Recording from an empty, uncapped session: the entries' keys are exactly
   * the frames' timestamps and the count is the number of frames.
   */
  lemma FreshRecording<T>(s: State<T>, frames: seq<Event<T>>, toDegrees: T -> T)
    requires s.recordState && s.recordFrames == NoCap && s.saveDict == map[] && s.frameNum == 0
    requires OnlyFrames(frames) && frames != []
    ensures var r := Run(s, frames, toDegrees);
      && r.recordState && r.showImage == s.showImage && r.folderName.Some?
      && r.saveDict.Keys == Stamps(frames) && r.frameNum == |frames|
    ensures HoldsRecords(Run(s, frames, toDegrees).saveDict, frames, toDegrees)
  {
    UncappedRecording(s, frames, toDegrees);
    RecordedEntries(s, frames, toDegrees);
    EmptyKeys(s.saveDict, Stamps(frames));
  }

  /** Play, then `n` frames: recording, with one entry per timestamp and a count of `n`. */
  lemma PlayThenFrames<T>(frames: seq<Event<T>>, toDegrees: T -> T)
    requires OnlyFrames(frames) && frames != []
    ensures var s := Run(Initial(), [PlayStopPressed] + frames, toDegrees);
      && s.recordState && s.showImage == StopFill && s.folderName.Some?
      && s.saveDict.Keys == Stamps(frames) && s.frameNum == |frames|
    ensures HoldsRecords(Run(Initial(), [PlayStopPressed] + frames, toDegrees).saveDict, frames, toDegrees)
  {
    RunPlayFirst(frames, toDegrees);
    FreshRecording(State(true, NoCap, StopFill, [PressToRecord], None, 0, map[]), frames, toDegrees);
  }

  lemma EmptyKeys<T>(m: Dict<T>, x: set<string>)
    requires m == map[]
    ensures m.Keys + x == x
  {
    assert m.Keys == {};
  }

  lemma RunPlayFirst<T>(frames: seq<Event<T>>, toDegrees: T -> T)
    ensures Run(Initial(), [PlayStopPressed] + frames, toDegrees)
         == Run(State(true, NoCap, StopFill, [PressToRecord], None, 0, map[]), frames, toDegrees)
  {
    var es := [PlayStopPressed] + frames;
    assert es[0] == PlayStopPressed && es[1..] == frames;
  }


  /** Play, `n` frames, stop: an idle state holding one entry per timestamp and a count of `n`. */
  lemma RecordedSession<T>(frames: seq<Event<T>>, toDegrees: T -> T)
    requires OnlyFrames(frames) && frames != []
    ensures var s := Run(Initial(), [PlayStopPressed] + frames + [PlayStopPressed], toDegrees);
      && !s.recordState && s.folderName.Some?
      && s.saveDict.Keys == Stamps(frames) && s.frameNum == |frames|
    ensures HoldsRecords(Run(Initial(), [PlayStopPressed] + frames + [PlayStopPressed], toDegrees).saveDict, frames, toDegrees)
  {
    var s2 := Run(Initial(), [PlayStopPressed] + frames, toDegrees);
    PlayThenFrames(frames, toDegrees);
    RunOne(s2, PlayStopPressed, toDegrees);
    RunAppend(Initial(), [PlayStopPressed] + frames, [PlayStopPressed], toDegrees);
  }

  /**
   * A whole session from launch: press play, record `n` frames with distinct
   * timestamps, press stop; the next frame writes a manifest of `n` frame
   * entries, each holding its frame's record, plus "FrameNum" holding `n`,
   * and leaves no session behind.
   */
  lemma WholeSession<T>(frames: seq<Event<T>>, last: Frame<T>, env: Env, toDegrees: T -> T)
    requires OnlyFrames(frames) && frames != []
    requires FreshStamps(frames, {FrameNumKey})
    ensures var s := Run(Initial(), [PlayStopPressed] + frames + [PlayStopPressed], toDegrees);
      var r := OnFrame(s, last, env, toDegrees);
      && r.effect.ManifestFile?
      && r.effect.manifest.Keys == Stamps(frames) + {FrameNumKey}
      && |r.effect.manifest| == |frames| + 1
      && r.effect.manifest[FrameNumKey] == FrameCount(|frames|)
      && NoSession(r.next) && !r.next.recordState
    ensures var s := Run(Initial(), [PlayStopPressed] + frames + [PlayStopPressed], toDegrees);
      var m := OnFrame(s, last, env, toDegrees).effect.manifest;
      forall i :: 0 <= i < |frames| ==>
        frames[i].frame.timeStamp in m && m[frames[i].frame.timeStamp] == FrameEntry(FrameRecord(frames[i].frame, toDegrees))
  {
    var s := Run(Initial(), [PlayStopPressed] + frames + [PlayStopPressed], toDegrees);
    RecordedSession(frames, toDegrees);
    FreshStampsCount(frames, {FrameNumKey});
    assert Pending(s);
    var r := OnFrame(s, last, env, toDegrees);
    assert r == IdleFrame(s, env);
    ManifestFrameEntries(s, env);
    forall i | 0 <= i < |frames|
      ensures frames[i].frame.timeStamp in r.effect.manifest
      ensures r.effect.manifest[frames[i].frame.timeStamp] == FrameEntry(FrameRecord(frames[i].frame, toDegrees))
    {
      assert LastWithStamp(frames, i);
      assert frames[i].frame.timeStamp != FrameNumKey;
    }
  }

}
