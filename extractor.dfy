/**
 * FrameExtractor: validates its configuration, then walks the frame index
 * plan, asking the video decoder for one frame per output file and writing
 * each as a numbered image file.
 *
 * The decoder and the image writer are foreign: the video length is a
 * parameter, the decoder's read results are an oracle of success flags, and
 * each write is recorded (file name, requested seek position, whether the
 * read gave a frame) in a log held by the extractor.
 */
module Extractor {
  import opened FramePlan
  import opened FrameNaming

  const SupportedVideoExt: seq<string> := [".avi", ".mp4"]
  const SupportedFrameExt: seq<string> := [".jpg", ".png"]

  datatype Error =
    | BadFrameCount(arg: int)            // argparse.ArgumentTypeError
    | UnsupportedVideoExt(ext: string)   // ValueError in main
    | VideoMissing                       // FileExistsError in the constructor
    | UnsupportedFrameExt(ext: string)   // ValueError in the constructor

  datatype Result<T> = Ok(value: T) | Err(error: Error)

  /** How a call of extract ends. */
  datatype Outcome =
    | Completed                 // the file for the last sample was written
    | DecodeFailed(file: nat)   // the read for this file gave no frame; writing it raises
    | DivisionByZero            // sample count 0: L / 0 raises after the first write

  /** One call of the image writer. */
  datatype FrameWrite = FrameWrite(name: string, seek: int, frameRead: bool)

  /** The -f/--frame argument check: -1 or a positive count. */
  function CheckFrmParam(s: int): (r: Result<int>)
    ensures r.Ok? <==> s == -1 || s > 0
    ensures r.Ok? ==> r.value == s
    ensures r.Err? ==> r.error == BadFrameCount(s)
  {
    if s <= 0 && s != -1 then Err(BadFrameCount(s)) else Ok(s)
  }

  /** The sample count extract uses: the sentinel -1 means every frame. */
  function SampleCount(argsFrm: int, videoLength: nat): (S: int)
    ensures argsFrm == -1 ==> S == videoLength
    ensures argsFrm != -1 ==> S == argsFrm
    ensures argsFrm >= -1 ==> S >= 0
    ensures CheckFrmParam(argsFrm).Ok? && videoLength > 0 ==> S >= 1
  {
    if argsFrm != -1 then argsFrm else videoLength
  }

  /**
   * Every argument the check accepts resolves to a sample count of at least
   * 1 (for a non-empty video), and -1 plans every frame in order.
   */
  lemma AcceptedCountIsPlannable(s: int, videoLength: nat)
    requires CheckFrmParam(s).Ok?
    ensures SampleCount(s, videoLength) >= 0
    ensures videoLength > 0 ==> SampleCount(s, videoLength) >= 1
    ensures s != -1 ==> SampleCount(s, videoLength) == s
    ensures s == -1 ==> Plan(videoLength, SampleCount(s, videoLength)) == seq(videoLength, j => j)
  {
    if s == -1 {
      EveryFramePlan(videoLength);
    }
  }

  /** The decoder's answer to the read for output file number i. */
  function ReadSucceeds(readOk: seq<bool>, i: nat): bool {
    i < |readOk| && readOk[i]
  }

  /** The write the extractor makes for output file number j. */
  function PlannedWrite(L: nat, S: nat, ext: string, readOk: seq<bool>, j: nat): FrameWrite
    requires S > 0 || j == 0
  {
    FrameWrite(FrameFileName(j, ext), PlannedIndex(L, S, j) - 1, ReadSucceeds(readOk, j))
  }

  /** The writes for output file numbers 0 .. n-1, in order. */
  function PlannedWrites(L: nat, S: nat, ext: string, readOk: seq<bool>, n: nat): (log: seq<FrameWrite>)
    requires S > 0 || n <= 1
    ensures |log| == n
    ensures forall j :: 0 <= j < n ==> log[j] == PlannedWrite(L, S, ext, readOk, j)
  {
    seq(n, j requires 0 <= j < n => PlannedWrite(L, S, ext, readOk, j))
  }

  lemma PlannedWritesGrow(L: nat, S: nat, ext: string, readOk: seq<bool>, n: nat)
    requires S > 0 || n == 0
    ensures PlannedWrites(L, S, ext, readOk, n) + [PlannedWrite(L, S, ext, readOk, n)]
            == PlannedWrites(L, S, ext, readOk, n + 1)
  {
  }

  /** The planned writes carry distinct file names. */
  lemma PlannedNamesDistinct(L: nat, S: nat, ext: string, readOk: seq<bool>, n: nat)
    requires S > 0 || n <= 1
    ensures forall i, j :: 0 <= i < j < n ==>
              PlannedWrites(L, S, ext, readOk, n)[i].name != PlannedWrites(L, S, ext, readOk, n)[j].name
  {
    forall i, j | 0 <= i < j < n
      ensures PlannedWrites(L, S, ext, readOk, n)[i].name != PlannedWrites(L, S, ext, readOk, n)[j].name
    {
      FileNamesDistinct(i, j, ext);
    }
  }

  /**
   * What one call of extract does, given the video length L, the resolved
   * sample count S and the decoder's read results: the writes made, in
   * order, and how the call ends.
   */
  ghost predicate ExtractionRecord(L: nat, S: nat, ext: string, readOk: seq<bool>,
                                   log: seq<FrameWrite>, outcome: Outcome)
  {
    1 <= |log| && (S > 0 ==> |log| <= S) && (S == 0 ==> |log| == 1) &&
    log == PlannedWrites(L, S, ext, readOk, |log|) &&
    (forall j :: 0 <= j < |log| - 1 ==> ReadSucceeds(readOk, j)) &&
    match outcome
    case Completed => S > 0 && |log| == S && ReadSucceeds(readOk, S - 1)
    case DecodeFailed(k) => k == |log| - 1 && !ReadSucceeds(readOk, k)
    case DivisionByZero => S == 0 && ReadSucceeds(readOk, 0)
  }

  /** No run writes two files under the same name. */
  lemma RecordNamesDistinct(L: nat, S: nat, ext: string, readOk: seq<bool>,
                            log: seq<FrameWrite>, outcome: Outcome)
    requires ExtractionRecord(L, S, ext, readOk, log, outcome)
    ensures forall i, j :: 0 <= i < j < |log| ==> log[i].name != log[j].name
  {
    PlannedNamesDistinct(L, S, ext, readOk, |log|);
  }

  /** For given inputs, the record fixes one write log and one outcome. */
  lemma ExtractionRecordDetermined(L: nat, S: nat, ext: string, readOk: seq<bool>,
                                   log1: seq<FrameWrite>, outcome1: Outcome,
                                   log2: seq<FrameWrite>, outcome2: Outcome)
    requires ExtractionRecord(L, S, ext, readOk, log1, outcome1)
    requires ExtractionRecord(L, S, ext, readOk, log2, outcome2)
    ensures log1 == log2 && outcome1 == outcome2
  {
  }

  /**
   * When every read succeeds, extract writes exactly S files, numbered
   * 0 .. S-1, with distinct names, each seeking one before its planned index.
   */
  lemma CompletedRun(L: nat, S: nat, ext: string, readOk: seq<bool>,
                     log: seq<FrameWrite>, outcome: Outcome)
    requires S > 0 && forall j :: 0 <= j < S ==> ReadSucceeds(readOk, j)
    requires ExtractionRecord(L, S, ext, readOk, log, outcome)
    ensures outcome == Completed && |log| == S
    ensures forall j :: 0 <= j < S ==> log[j] == FrameWrite(FrameFileName(j, ext), Plan(L, S)[j] - 1, true)
    ensures forall i, j :: 0 <= i < j < S ==> log[i].name != log[j].name
  {
    RecordNamesDistinct(L, S, ext, readOk, log, outcome);
  }

  /**
   * A run that fails at read k called the image writer for files 0 .. k,
   * the last with no frame, and for nothing after.
   */
  lemma FailedRun(L: nat, S: nat, ext: string, readOk: seq<bool>,
                  log: seq<FrameWrite>, k: nat)
    requires ExtractionRecord(L, S, ext, readOk, log, DecodeFailed(k))
    ensures |log| == k + 1 && (S > 0 ==> k < S) && !log[k].frameRead
    ensures forall j :: 0 <= j < k ==> log[j].frameRead
    ensures forall j :: 0 <= j < k ==> ReadSucceeds(readOk, j)
  {
  }

  /** One step of the accumulator, in the form the loop computes it. */
  lemma NextIndex(L: nat, S: nat, j: nat, acc: int)
    requires S > 0 && acc == j * L
    ensures acc + L == (j + 1) * L
    ensures PlannedIndex(L, S, j + 1)
            == if acc + L + L > (L - 1) * S then L - 1 else CeilDiv(acc + L, S)
  {
    assert (j + 1) * L == j * L + L;
    assert (j + 2) * L == j * L + L + L;
  }

  class FrameExtractor {
    const videoLength: nat
    const frameExt: string
    /** sample_frm: 0 until Extract sets it */
    var sampleFrm: int

    constructor (videoLength: nat, frameExt: string)
      ensures this.videoLength == videoLength && this.frameExt == frameExt
      ensures sampleFrm == 0
    {
      this.videoLength := videoLength;
      this.frameExt := frameExt;
      sampleFrm := 0;
    }

    /**
     * The checks of FrameExtractor.__init__: the video file must exist
     * (checked first), then the frame extension must be supported. The
     * video length is what the decoder reports.
     */
    static method New(videoExists: bool, videoLength: nat, frameExt: string)
      returns (r: Result<FrameExtractor>)
      ensures !videoExists ==> r == Err(VideoMissing)
      ensures videoExists && frameExt !in SupportedFrameExt ==> r == Err(UnsupportedFrameExt(frameExt))
      ensures r.Ok? <==> videoExists && frameExt in SupportedFrameExt
      ensures r.Ok? ==> fresh(r.value) && r.value.videoLength == videoLength
                        && r.value.frameExt == frameExt
    {
      if !videoExists {
        return Err(VideoMissing);
      }
      if frameExt !in SupportedFrameExt {
        return Err(UnsupportedFrameExt(frameExt));
      }
      var x := new FrameExtractor(videoLength, frameExt);
      r := Ok(x);
    }

    /**
     * FrameExtractor.extract. Returns how the call ends and the writes it
     * made, in order. The float accumulator frame_cnt_f is kept exactly as
     * scaledAcc == frame_cnt_f * sampleFrm.
     */
    method Extract(argsFrm: int, readOk: seq<bool>) returns (outcome: Outcome, log: seq<FrameWrite>)
      requires argsFrm >= -1
      modifies this
      ensures sampleFrm == SampleCount(argsFrm, videoLength)
      ensures ExtractionRecord(videoLength, sampleFrm, frameExt, readOk, log, outcome)
    {
      if argsFrm != -1 {
        sampleFrm := argsFrm;
      } else {
        sampleFrm := videoLength;
      }
      var L, S, ext := videoLength, sampleFrm, frameExt;

      var frameCnt := 0;
      var scaledAcc := 0;
      var fileCnt: nat := 0;
      var success := true;
      log := [];

      while success
        invariant success && sampleFrm == S && S >= 0
        invariant S > 0 ==> fileCnt < S
        invariant S == 0 ==> fileCnt == 0
        invariant fileCnt <= |readOk|
        invariant scaledAcc == fileCnt * L
        invariant frameCnt == PlannedIndex(L, S, fileCnt)
        invariant log == PlannedWrites(L, S, ext, readOk, fileCnt)
        invariant forall j :: 0 <= j < fileCnt ==> ReadSucceeds(readOk, j)
        decreases |readOk| - fileCnt
      {
        // seek to frameCnt - 1, then read one frame
        success := ReadSucceeds(readOk, fileCnt);
        var written := FrameWrite(FrameFileName(fileCnt, ext), frameCnt - 1, success);
        assert written == PlannedWrite(L, S, ext, readOk, fileCnt);
        PlannedWritesGrow(L, S, ext, readOk, fileCnt);
        log := log + [written];
        if !success {
          // the image writer refuses the empty frame
          outcome := DecodeFailed(fileCnt);
          return;
        }

        if fileCnt == S - 1 {
          outcome := Completed;
          break;
        }
        if S == 0 {
          // frame_cnt_f += L / 0
          outcome := DivisionByZero;
          return;
        }

        NextIndex(L, S, fileCnt, scaledAcc);
        ghost var next := PlannedIndex(L, S, fileCnt + 1);
        scaledAcc := scaledAcc + L;
        frameCnt := CeilDiv(scaledAcc, S);
        fileCnt := fileCnt + 1;
        // frame_cnt_f + L / S > L - 1, multiplied through by S > 0
        if scaledAcc + L > (L - 1) * S {
          frameCnt := L - 1;
        }
        assert frameCnt == next;
      }
    }
  }

  /** How main ends when nothing was raised. */
  datatype Run =
    | NothingToDo        // the video argument was the empty string
    | Ran(outcome: Outcome)

  /**
   * main: the frame argument is checked while parsing; an empty video
   * argument (videoGiven false) then ends the program without doing
   * anything; otherwise the video extension is checked, the extractor is
   * built with the default ".jpg" frame extension and run. Returns how the
   * program ended and the writes it made.
   */
  method RunMain(frameArg: int, videoGiven: bool, videoExt: string, videoExists: bool,
                 videoLength: nat, readOk: seq<bool>)
    returns (r: Result<Run>, log: seq<FrameWrite>)
    ensures !CheckFrmParam(frameArg).Ok? ==> r == Err(BadFrameCount(frameArg)) && log == []
    ensures CheckFrmParam(frameArg).Ok? && !videoGiven ==> r == Ok(NothingToDo) && log == []
    ensures CheckFrmParam(frameArg).Ok? && videoGiven && videoExt !in SupportedVideoExt
            ==> r == Err(UnsupportedVideoExt(videoExt)) && log == []
    ensures CheckFrmParam(frameArg).Ok? && videoGiven && videoExt in SupportedVideoExt && !videoExists
            ==> r == Err(VideoMissing) && log == []
    ensures r.Ok? && r.value.Ran? <==>
              CheckFrmParam(frameArg).Ok? && videoGiven && videoExt in SupportedVideoExt && videoExists
    ensures r.Ok? && r.value.Ran? ==>
              ExtractionRecord(videoLength, SampleCount(frameArg, videoLength), ".jpg",
                               readOk, log, r.value.outcome)
  {
    var frm := CheckFrmParam(frameArg);
    if frm.Err? {
      return Err(frm.error), [];
    }
    if !videoGiven {
      return Ok(NothingToDo), [];
    }
    if videoExt !in SupportedVideoExt {
      return Err(UnsupportedVideoExt(videoExt)), [];
    }
    var made := FrameExtractor.New(videoExists, videoLength, ".jpg");
    if made.Err? {
      return Err(made.error), [];
    }
    var outcome;
    outcome, log := made.value.Extract(frm.value, readOk);
    r := Ok(Ran(outcome));
  }
}
