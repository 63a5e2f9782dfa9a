/**
 * The recording session driven by `Coordinator.session(_:didUpdate:)` and the
 * two buttons of `ContentView`: the state those share, what one arriving
 * frame does to it while recording and while idle, and what each button does.
 *
 * Sequential abstraction: the work a recording frame dispatches with
 * `DispatchQueue.global(...).async` is taken to run to completion right
 * after the callback that dispatched it, before any other event. The races
 * that concurrent blocks have on `saveDict` and `frameNum` are therefore not
 * part of this model.
 *
 * The platform's answers (the calendar time, whether the device reports
 * depth, whether the manifest write succeeded) arrive as an `Env` value.
 * File contents are not modelled; an event reports which files it writes.
 */
module Recording {
  import opened Wrappers
  import opened Matrix
  import opened SessionName

  /** `recordFrames` when no frame cap is armed. */
  const NoCap: int := -1
  /** The frame cap the red button arms. */
  const CapFrames: int := 1000
  /** The manifest key holding the number of frames. */
  const FrameNumKey: string := "FrameNum"

  /** The system image the play/stop button shows, "play.fill" or "stop.fill". */
  datatype Icon = PlayFill | StopFill

  /**
   * Pieces of the status text `showInfo`. The float readouts (FPS, angles,
   * position) are not modelled beyond their presence.
   */
  datatype InfoPart =
    | PressToRecord            // "Press the button to record >>>\n"
    | NoDepthSupport           // "Your device does not support Depth\n"
    | PoseReadout              // angles in degrees and position
    | FrameStats(frames: int)  // FPS, the frame count, angles and position
    | SaveJsonFailed           // "Save JSON failed;"

  /** The per-frame manifest entry: "transformMat", "eulrAngle" and "intrinsics". */
  datatype MetaRecord<T> = MetaRecord(transformMat: seq<seq<T>>, eulrAngle: seq<T>, intrinsics: seq<seq<T>>)

  /** A value of `saveDict`: a frame's entry, or the frame count under "FrameNum". */
  datatype DictValue<T> = FrameEntry(record: MetaRecord<T>) | FrameCount(count: int)

  type Dict<T> = map<string, DictValue<T>>

  /**
   * An ARKit frame as far as the recorder reads it. `timeStamp` is the
   * frame's timestamp already formatted with "%f"; the formatting is not
   * modelled and the string serves only as a key.
   */
  datatype Frame<T> = Frame(timeStamp: string, transform: Mat4<T>, eulerAngles: Vec3<T>, intrinsics: Mat3<T>)

  /** What the platform answers during one callback. */
  datatype Env = Env(now: CalendarTime, depthSupported: bool, jsonWriteOk: bool)

  /**
   * The state shared by the coordinator and the view: the bindings
   * `recordState`, `recordFrames` (`NoCap` when no cap), `showImage` and
   * `showInfo`, and the coordinator's `folderName`, `frameNum` and `saveDict`.
   */
  datatype State<T> = State(
    recordState: bool,
    recordFrames: int,
    showImage: Icon,
    showInfo: seq<InfoPart>,
    folderName: Option<string>,
    frameNum: int,
    saveDict: Dict<T>)

  /** The files one event writes, relative to the documents directory. */
  datatype Effect<T> =
    | NoFiles
    | FrameFiles(paths: seq<string>)
    | ManifestFile(path: string, manifest: Dict<T>)

  datatype Reaction<T> = Reaction(next: State<T>, effect: Effect<T>)

  /** The state when the view appears. */
  function Initial<T>(): State<T> {
    State(false, NoCap, PlayFill, [PressToRecord], None, 0, map[])
  }

  /** No session is pending: nothing recorded since the last flush. */
  predicate NoSession<T>(s: State<T>) {
    s.folderName == None && s.saveDict == map[] && s.frameNum == 0
  }

  predicate StartsWith(s: string, prefix: string) {
    |prefix| <= |s| && s[..|prefix|] == prefix
  }

  predicate EndsWith(s: string, suffix: string) {
    |suffix| <= |s| && s[|s| - |suffix|..] == suffix
  }

  /**
   * The colour image, depth map and confidence map files of one frame: three
   * different files.
   */
  function ArtifactPaths(folder: string, timeStamp: string): (ps: seq<string>)
    ensures |ps| == 3
    ensures ps[0] != ps[1] && ps[1] != ps[2] && ps[0] != ps[2]
  {
    var ps := [folder + "/rgb/" + timeStamp + ".jpg",
               folder + "/depth/" + timeStamp + ".tiff",
               folder + "/conf/" + timeStamp + ".png"];
    assert ps[0][|folder| + 1] == 'r' && ps[1][|folder| + 1] == 'd' && ps[2][|folder| + 1] == 'c';
    ps
  }

  /**
   * Each file lies in its format's sub-folder of the session folder and is
   * named by the frame's timestamp, the key its metadata is stored under,
   * plus the format's extension.
   */
  lemma ArtifactPathsByStamp(folder: string, timeStamp: string)
    ensures var ps := ArtifactPaths(folder, timeStamp);
      && StartsWith(ps[0], folder + "/rgb/") && EndsWith(ps[0], timeStamp + ".jpg")
      && StartsWith(ps[1], folder + "/depth/") && EndsWith(ps[1], timeStamp + ".tiff")
      && StartsWith(ps[2], folder + "/conf/") && EndsWith(ps[2], timeStamp + ".png")
  {
  }

  function ManifestPath(folder: string): string {
    folder + "/meta.json"
  }

  /**
   * `saveDict[key] = v`: the key is present afterwards with value `v`, an
   * earlier value under it is overwritten, and every other key keeps its value.
   */
  function Insert<T>(d: Dict<T>, key: string, v: DictValue<T>): (r: Dict<T>)
    ensures r.Keys == d.Keys + {key}
    ensures r[key] == v
    ensures forall k :: k in d && k != key ==> r[k] == d[k]
  {
    d[key := v]
  }

  /** The manifest entry of a frame; `toDegrees` converts its Euler angles. */
  function FrameRecord<T>(f: Frame<T>, toDegrees: T -> T): MetaRecord<T> {
    MetaRecord(ArrayFromTransform(f.transform), ArrayFromAngles(f.eulerAngles, toDegrees), ArrayFromIntrinsics(f.intrinsics))
  }

  /**
   * A frame arriving while recording: name the session folder if it has no
   * name yet, write the frame's three images, enter its metadata under its
   * timestamp, count it, and stop recording when the count reaches an armed
   * cap. The per-image write outcomes only append to `showInfo`, which the
   * frame statistics then overwrite, so they leave no trace in the state.
   */
  function RecordFrame<T>(s: State<T>, f: Frame<T>, env: Env, toDegrees: T -> T): (r: Reaction<T>)
    ensures s.folderName.Some? ==> r.next.folderName == s.folderName
    ensures s.folderName.None? ==> r.next.folderName == Some(TimeString(env.now))
    ensures r.next.saveDict.Keys == s.saveDict.Keys + {f.timeStamp}
    ensures r.next.saveDict[f.timeStamp] == FrameEntry(FrameRecord(f, toDegrees))
    ensures forall k :: k in s.saveDict && k != f.timeStamp ==> r.next.saveDict[k] == s.saveDict[k]
    ensures r.next.frameNum == s.frameNum + 1
    ensures s.recordFrames != NoCap && s.frameNum + 1 == s.recordFrames ==>
      !r.next.recordState && r.next.recordFrames == NoCap && r.next.showImage == PlayFill
    ensures !(s.recordFrames != NoCap && s.frameNum + 1 == s.recordFrames) ==>
      r.next.recordState == s.recordState && r.next.recordFrames == s.recordFrames && r.next.showImage == s.showImage
    ensures r.next.showInfo == [FrameStats(s.frameNum + 1)]
    ensures r.next.folderName.Some? && r.effect == FrameFiles(ArtifactPaths(r.next.folderName.value, f.timeStamp))
  {
    var folder := if s.folderName.None? then TimeString(env.now) else s.folderName.value;
    var dict := Insert(s.saveDict, f.timeStamp, FrameEntry(FrameRecord(f, toDegrees)));
    var count := s.frameNum + 1;
    var capReached := s.recordFrames != NoCap && count == s.recordFrames;
    var next := s.(
      folderName := Some(folder),
      saveDict := dict,
      frameNum := count,
      recordState := if capReached then false else s.recordState,
      recordFrames := if capReached then NoCap else s.recordFrames,
      showImage := if capReached then PlayFill else s.showImage,
      showInfo := [FrameStats(count)]);
    Reaction(next, FrameFiles(ArtifactPaths(folder, f.timeStamp)))
  }

  /** Whether an idle frame finds a session to flush. */
  predicate Pending<T>(s: State<T>) {
    s.saveDict != map[] && s.folderName.Some?
  }

  /**
   * A frame arriving while idle. With a pending session it writes the
   * manifest, `saveDict` plus the frame count under "FrameNum", to
   * `meta.json` in the session folder and clears the session whether or not
   * the write succeeded; a failure only appends to `showInfo`. Without one it
   * refreshes the prompt. Either way the frame cap is disarmed.
   */
  function IdleFrame<T>(s: State<T>, env: Env): (r: Reaction<T>)
    ensures r.next.recordFrames == NoCap
    ensures r.next.recordState == s.recordState && r.next.showImage == s.showImage
    ensures Pending(s) ==>
      && r.effect.ManifestFile?
      && r.effect.path == ManifestPath(s.folderName.value)
      && r.effect.manifest.Keys == s.saveDict.Keys + {FrameNumKey}
      && r.effect.manifest[FrameNumKey] == FrameCount(s.frameNum)
      && (forall k :: k in s.saveDict && k != FrameNumKey ==> r.effect.manifest[k] == s.saveDict[k])
      && NoSession(r.next)
      && r.next.showInfo == s.showInfo + (if env.jsonWriteOk then [] else [SaveJsonFailed])
    ensures !Pending(s) ==>
      && r.effect == NoFiles
      && r.next.folderName == s.folderName && r.next.saveDict == s.saveDict && r.next.frameNum == s.frameNum
      && r.next.showInfo == [PressToRecord] + (if env.depthSupported then [] else [NoDepthSupport]) + [PoseReadout]
  {
    if Pending(s) then
      var manifest := Insert(s.saveDict, FrameNumKey, FrameCount(s.frameNum));
      var info := if env.jsonWriteOk then s.showInfo else s.showInfo + [SaveJsonFailed];
      var next := s.(saveDict := map[], folderName := None, frameNum := 0, showInfo := info, recordFrames := NoCap);
      Reaction(next, ManifestFile(ManifestPath(s.folderName.value), manifest))
    else
      var info := [PressToRecord] + (if env.depthSupported then [] else [NoDepthSupport]) + [PoseReadout];
      Reaction(s.(showInfo := info, recordFrames := NoCap), NoFiles)
  }

  /** The manifest's frame entries are exactly `saveDict` when no frame is keyed "FrameNum". */
  lemma ManifestFrameEntries<T>(s: State<T>, env: Env)
    requires Pending(s) && FrameNumKey !in s.saveDict
    ensures IdleFrame(s, env).effect.manifest - {FrameNumKey} == s.saveDict
    ensures |IdleFrame(s, env).effect.manifest| == |s.saveDict| + 1
  {
    var m := IdleFrame(s, env).effect.manifest;
    assert m - {FrameNumKey} == s.saveDict;
    assert m.Keys == s.saveDict.Keys + {FrameNumKey};
  }

  /** `session(_:didUpdate:)`: a recording frame grows the session, an idle frame never does. */
  function OnFrame<T>(s: State<T>, f: Frame<T>, env: Env, toDegrees: T -> T): (r: Reaction<T>)
    ensures s.recordState ==> r.next.saveDict.Keys == s.saveDict.Keys + {f.timeStamp} && r.next.frameNum == s.frameNum + 1
    ensures !s.recordState ==> r.next.saveDict.Keys <= s.saveDict.Keys && r.next.recordFrames == NoCap
    ensures !s.recordState ==> !r.next.recordState
  {
    if s.recordState then RecordFrame(s, f, env, toDegrees) else IdleFrame(s, env)
  }

  /**
   * The play/stop button: it switches on the icon it shows, starting to
   * record under "play.fill" and stopping under "stop.fill". Stopping resets
   * the status text but flushes nothing; the next frame does that.
   */
  function PressPlayStop<T>(s: State<T>): (r: State<T>)
    ensures s.showImage == PlayFill ==> r.recordState && r.showImage == StopFill && r.showInfo == s.showInfo
    ensures s.showImage == StopFill ==> !r.recordState && r.showImage == PlayFill && r.showInfo == [PressToRecord]
    ensures r.recordFrames == s.recordFrames
    ensures r.folderName == s.folderName && r.frameNum == s.frameNum && r.saveDict == s.saveDict
  {
    if s.showImage == PlayFill then
      s.(showImage := StopFill, recordState := true)
    else
      s.(showImage := PlayFill, showInfo := [PressToRecord], recordState := false)
  }

  /**
   * The red button: only when no cap is armed, it arms a cap of 1000 frames
   * and starts recording.
   */
  function PressCap<T>(s: State<T>): (r: State<T>)
    ensures s.recordFrames != NoCap ==> r == s
    ensures s.recordFrames == NoCap ==>
      && r.recordFrames == CapFrames && r.recordState && r.showImage == StopFill
      && r.showInfo == s.showInfo && r.folderName == s.folderName
      && r.frameNum == s.frameNum && r.saveDict == s.saveDict
  {
    if s.recordFrames == NoCap then
      s.(showImage := StopFill, recordFrames := CapFrames, recordState := true)
    else
      s
  }

}
