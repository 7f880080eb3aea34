/**
  The rules of the tracking program's main loop: which detector and
  descriptor the command line selects, the name of each image file, the
  ring buffer of frames, the bounding box that keeps only keypoints on the
  preceding vehicle, and which two frames are matched.
 */
module CameraPipeline {
  import opened KeyPoints

  datatype Option<T> = None | Some(value: T)

  // ---------------------------------------------------------------------
  // Detector and descriptor selection from the command line.

  datatype Config = Config(detectorType: string, descriptorType: string)

  /** `argv` holds argc strings, the program name first. Exactly two
      arguments name the detector and the descriptor; none selects AKAZE for
      both; any other count leaves both names empty. */
  function SelectTypes(argv: seq<string>): (c: Config)
    ensures |argv| == 3 ==> c.detectorType == argv[1] && c.descriptorType == argv[2]
    ensures |argv| == 1 ==> c.detectorType == "AKAZE" && c.descriptorType == "AKAZE"
    ensures |argv| != 1 && |argv| != 3 ==> c.detectorType == "" && c.descriptorType == ""
  {
    if |argv| == 3 then Config(argv[1], argv[2])
    else if |argv| == 1 then Config("AKAZE", "AKAZE")
    else Config("", "")
  }

  // ---------------------------------------------------------------------
  // Image file names.

  const DataPath: string := "../"
  const ImgBasePath: string := DataPath + "images/"
  const ImgPrefix: string := "KITTI/2011_09_26/image_00/data/000000"
  const ImgFileType: string := ".png"
  const ImgStartIndex: nat := 0
  const ImgEndIndex: nat := 1
  const ImgFillWidth: nat := 4

  predicate IsDigit(ch: char)
  {
    '0' <= ch <= '9'
  }

  function DigitChar(d: nat): (ch: char)
    requires d < 10
    ensures IsDigit(ch)
  {
    (('0' as int) + d) as char
  }

  function DigitValue(ch: char): nat
    requires IsDigit(ch)
  {
    (ch as int) - ('0' as int)
  }

  /** The decimal digits of n as an output stream writes them: no leading
      zero, "0" for zero. */
  function Decimal(n: nat): (s: string)
    ensures 1 <= |s| && (forall i :: 0 <= i < |s| ==> IsDigit(s[i]))
    ensures |s| > 1 ==> s[0] != '0'
  {
    if n < 10 then [DigitChar(n)] else Decimal(n / 10) + [DigitChar(n % 10)]
  }

  /** The number a string of decimal digits denotes (leading zeros allowed). */
  function DigitsValue(s: string): nat
    requires forall i :: 0 <= i < |s| ==> IsDigit(s[i])
  {
    if s == [] then 0 else 10 * DigitsValue(s[..|s| - 1]) + DigitValue(s[|s| - 1])
  }

  /** `n` copies of the fill character. */
  function Fill(ch: char, n: nat): (r: string)
    ensures |r| == n && forall i :: 0 <= i < n ==> r[i] == ch
  {
    if n == 0 then [] else [ch] + Fill(ch, n - 1)
  }

  /** `s` written right-aligned in a field of `width` characters filled with
      '0' (setfill('0') << setw(width)): padded on the left, never cut. */
  function ZeroPad(s: string, width: nat): (r: string)
    ensures |r| == (if |s| < width then width else |s|)
    ensures r[|r| - |s|..] == s
    ensures forall i :: 0 <= i < |r| - |s| ==> r[i] == '0'
  {
    if |s| < width then Fill('0', width - |s|) + s else s
  }

  /** The image number of the frame with the given index: its decimal digits
      zero-padded to ImgFillWidth. */
  function ImageNumber(index: nat): (s: string)
    ensures |s| >= ImgFillWidth && forall i :: 0 <= i < |s| ==> IsDigit(s[i])
  {
    ZeroPad(Decimal(index), ImgFillWidth)
  }

  /** The full path of the image with the given index. */
  function ImageFilename(index: nat): string
  {
    ImgBasePath + ImgPrefix + ImageNumber(index) + ImgFileType
  }

  /** The file name is the base path and prefix, the padded image number and
      the ".png" extension, in that order. */
  lemma ImageFilenameParts(index: nat)
    ensures var f := ImageFilename(index);
      && |f| == |ImgBasePath + ImgPrefix| + |ImageNumber(index)| + |ImgFileType|
      && f[..|ImgBasePath + ImgPrefix|] == ImgBasePath + ImgPrefix
      && f[|f| - |ImgFileType|..] == ImgFileType
      && f[|ImgBasePath + ImgPrefix|..|f| - |ImgFileType|] == ImageNumber(index)
  {
  }

  lemma {:induction false} DecimalValue(n: nat)
    ensures DigitsValue(Decimal(n)) == n
  {
    if n >= 10 {
      var s := Decimal(n);
      assert s[..|s| - 1] == Decimal(n / 10);
      DecimalValue(n / 10);
    }
  }

  lemma {:induction false} LeadingZeroValue(s: string)
    requires forall i :: 0 <= i < |s| ==> IsDigit(s[i])
    ensures DigitsValue(['0'] + s) == DigitsValue(s)
    decreases |s|
  {
    if s != [] {
      var t := ['0'] + s;
      assert t[..|t| - 1] == ['0'] + s[..|s| - 1];
      LeadingZeroValue(s[..|s| - 1]);
    }
  }

  lemma {:induction false} ZeroFillValue(n: nat, s: string)
    requires forall i :: 0 <= i < |s| ==> IsDigit(s[i])
    ensures DigitsValue(Fill('0', n) + s) == DigitsValue(s)
    decreases n
  {
    if n > 0 {
      var rest := Fill('0', n - 1) + s;
      assert Fill('0', n) + s == ['0'] + rest;
      LeadingZeroValue(rest);
      ZeroFillValue(n - 1, s);
      assert DigitsValue(['0'] + rest) == DigitsValue(s);
    } else {
      assert Fill('0', n) + s == s;
    }
  }

  /** Reading the padded image number back gives the index: padding only
      adds leading zeros and never drops a digit. */
  lemma ImageNumberValue(index: nat)
    ensures DigitsValue(ImageNumber(index)) == index
  {
    var d := Decimal(index);
    DecimalValue(index);
    if |d| < ImgFillWidth {
      ZeroFillValue(ImgFillWidth - |d|, d);
    }
  }

  /** Different indices name different files. */
  lemma ImageFilenameInjective(i: nat, j: nat)
    requires ImageFilename(i) == ImageFilename(j)
    ensures i == j
  {
    ImageFilenameParts(i);
    ImageFilenameParts(j);
    ImageNumberValue(i);
    ImageNumberValue(j);
  }

  // ---------------------------------------------------------------------
  // Keeping only the keypoints on the preceding vehicle.

  /** An axis-aligned rectangle (cv::Rect): top-left corner, width, height. */
  datatype Rect = Rect(x: int, y: int, width: int, height: int)

  /** cv::Rect::contains: the half-open test x <= px < x + width,
      y <= py < y + height. */
  predicate Contains(r: Rect, px: int, py: int)
  {
    r.x <= px < r.x + r.width && r.y <= py < r.y + r.height
  }

  const VehicleRect: Rect := Rect(535, 180, 180, 150)

  /** The keypoint lies in the vehicle rectangle and its diameter does not
      exceed the rectangle's width. */
  predicate OnVehicle(k: KeyPoint)
  {
    Contains(VehicleRect, k.x, k.y) && k.size <= VehicleRect.width
  }

  /** The keypoints of `kps` on the vehicle, in their original order. */
  function KeepOnVehicle(kps: seq<KeyPoint>): seq<KeyPoint>
  {
    if kps == [] then []
    else KeepOnVehicle(kps[..|kps| - 1]) + (if OnVehicle(kps[|kps| - 1]) then [kps[|kps| - 1]] else [])
  }

  /** `a` is `b` with some elements left out, the rest in order. */
  predicate IsSubsequence(a: seq<KeyPoint>, b: seq<KeyPoint>)
    decreases |b|
  {
    a == [] ||
    (b != [] &&
     ((a[|a| - 1] == b[|b| - 1] && IsSubsequence(a[..|a| - 1], b[..|b| - 1])) ||
      IsSubsequence(a, b[..|b| - 1])))
  }

  /** The filter drops keypoints and never reorders the others. */
  lemma {:induction false} KeepOnVehicleIsSubsequence(kps: seq<KeyPoint>)
    ensures IsSubsequence(KeepOnVehicle(kps), kps)
    decreases |kps|
  {
    if kps != [] {
      var init, last := kps[..|kps| - 1], kps[|kps| - 1];
      KeepOnVehicleIsSubsequence(init);
      assert kps[..|kps| - 1] == init;
      var a := KeepOnVehicle(kps);
      if OnVehicle(last) {
        assert a[..|a| - 1] == KeepOnVehicle(init) && a[|a| - 1] == last;
        assert a[|a| - 1] == kps[|kps| - 1] && IsSubsequence(a[..|a| - 1], kps[..|kps| - 1]);
      } else {
        assert a == KeepOnVehicle(init);
        assert a == [] || IsSubsequence(a, kps[..|kps| - 1]);
      }
    }
  }

  /** A keypoint is kept if and only if it is one of the input keypoints and
      lies on the vehicle. */
  lemma {:induction false} KeepOnVehicleMembers(kps: seq<KeyPoint>)
    ensures forall k :: k in KeepOnVehicle(kps) <==> k in kps && OnVehicle(k)
    decreases |kps|
  {
    if kps != [] {
      KeepOnVehicleMembers(kps[..|kps| - 1]);
      assert kps == kps[..|kps| - 1] + [kps[|kps| - 1]];
    }
  }

  /** Every occurrence of a keypoint on the vehicle is kept, repeats included,
      and no occurrence of any other keypoint is. */
  lemma {:induction false} KeepOnVehicleMultiplicity(kps: seq<KeyPoint>)
    ensures forall k :: multiset(KeepOnVehicle(kps))[k] == if OnVehicle(k) then multiset(kps)[k] else 0
    decreases |kps|
  {
    if kps != [] {
      var init, last := kps[..|kps| - 1], kps[|kps| - 1];
      KeepOnVehicleMultiplicity(init);
      assert kps == init + [last];
      assert multiset(kps) == multiset(init) + multiset{last};
    }
  }

  /** The bounding-box loop: push back every keypoint on the vehicle. */
  method FilterKeypoints(keypoints: seq<KeyPoint>) returns (filtered: seq<KeyPoint>)
    ensures filtered == KeepOnVehicle(keypoints)
  {
    filtered := [];
    var i := 0;
    while i < |keypoints|
      invariant 0 <= i <= |keypoints|
      invariant filtered == KeepOnVehicle(keypoints[..i])
    {
      assert keypoints[..i + 1][..i] == keypoints[..i];
      if OnVehicle(keypoints[i]) {
        filtered := filtered + [keypoints[i]];
      }
      i := i + 1;
    }
    assert keypoints[..|keypoints|] == keypoints;
  }

  // ---------------------------------------------------------------------
  // The ring buffer of frames and the frames that are matched.

  /** A camera frame: the image (named by the file it was read from) and the
      keypoints kept for it. */
  datatype DataFrame = DataFrame(image: string, keypoints: seq<KeyPoint>)

  const DataBufferSize: nat := 2

  /** The frames after pushing `f`: the oldest frame is dropped first only
      when the buffer already holds more than DataBufferSize frames. */
  function Pushed(frames: seq<DataFrame>, f: DataFrame): (r: seq<DataFrame>)
    ensures |r| == if |frames| > DataBufferSize then |frames| else |frames| + 1
    ensures r[|r| - 1] == f
    ensures r[..|r| - 1] == frames[|frames| + 1 - |r|..]
  {
    (if |frames| > DataBufferSize then frames[1..] else frames) + [f]
  }

  /** The frames held after pushing each frame of `fs` in turn. */
  function PushAll(frames: seq<DataFrame>, fs: seq<DataFrame>): seq<DataFrame>
  {
    if fs == [] then frames else Pushed(PushAll(frames, fs[..|fs| - 1]), fs[|fs| - 1])
  }

  /** The last min(|s|, DataBufferSize + 1) elements of `s`, in order. */
  function Recent(s: seq<DataFrame>): (r: seq<DataFrame>)
    ensures |r| == (if |s| <= DataBufferSize + 1 then |s| else DataBufferSize + 1)
  {
    if |s| <= DataBufferSize + 1 then s else s[|s| - (DataBufferSize + 1)..]
  }

  lemma PushedRecent(s: seq<DataFrame>, f: DataFrame)
    ensures Pushed(Recent(s), f) == Recent(s + [f])
  {
    if |s| > DataBufferSize {
      var n := |s|;
      assert Recent(s)[1..] == s[n - DataBufferSize..];
      assert (s + [f])[n - DataBufferSize..] == s[n - DataBufferSize..] + [f];
    }
  }

  /** From an empty buffer, after any number of pushes the buffer holds the
      most recent min(n, DataBufferSize + 1) frames, oldest first: three
      frames, not DataBufferSize = 2. */
  lemma {:induction false} PushAllKeepsRecent(fs: seq<DataFrame>)
    ensures PushAll([], fs) == Recent(fs)
    decreases |fs|
  {
    if fs != [] {
      var init, last := fs[..|fs| - 1], fs[|fs| - 1];
      calc {
        PushAll([], fs);
        Pushed(PushAll([], init), last);
        { PushAllKeepsRecent(init); }
        Pushed(Recent(init), last);
        { PushedRecent(init, last); }
        Recent(init + [last]);
        { assert init + [last] == fs; }
        Recent(fs);
      }
    }
  }

  /** The source and reference frames to match: the second-to-last and the
      last frame, once the buffer holds more than one frame. */
  function MatchPair(frames: seq<DataFrame>): (p: Option<(DataFrame, DataFrame)>)
    ensures p.Some? <==> |frames| > 1
    ensures p.Some? ==> p.value.0 == frames[|frames| - 2] && p.value.1 == frames[|frames| - 1]
  {
    if |frames| > 1 then Some((frames[|frames| - 2], frames[|frames| - 1])) else None
  }

  /** After a push, the frame pushed before is matched against the new one. */
  lemma PushedMatchesPrevious(frames: seq<DataFrame>, f: DataFrame)
    ensures MatchPair(Pushed(frames, f)) == if frames == [] then None else Some((frames[|frames| - 1], f))
  {
  }

  /** Pushing a frame without keypoints and then storing `kps` in the newest
      frame is the same as pushing the frame with `kps`. */
  lemma PushedThenSetLast(frames: seq<DataFrame>, image: string, kps: seq<KeyPoint>)
    ensures var p := Pushed(frames, DataFrame(image, []));
      p[..|p| - 1] + [p[|p| - 1].(keypoints := kps)] == Pushed(frames, DataFrame(image, kps))
  {
  }

  /** The std::deque of frames kept by the main loop. */
  class FrameBuffer {
    var frames: seq<DataFrame>

    /** The bound that the pop-then-push rule keeps. */
    ghost predicate Valid()
      reads this
    {
      |frames| <= DataBufferSize + 1
    }

    constructor ()
      ensures Valid() && frames == []
    {
      frames := [];
    }

    /** Pop the oldest frame when more than DataBufferSize are held, then push. */
    method Push(frame: DataFrame)
      requires Valid()
      modifies this
      ensures Valid()
      ensures frames == Pushed(old(frames), frame)
    {
      if |frames| > DataBufferSize {
        frames := frames[1..];
      }
      frames := frames + [frame];
    }

    /** Store the keypoints of the newest frame. */
    method SetLastKeypoints(kps: seq<KeyPoint>)
      requires Valid() && frames != []
      modifies this
      ensures Valid()
      ensures frames == old(frames)[..|old(frames)| - 1] + [old(frames)[|old(frames)| - 1].(keypoints := kps)]
    {
      frames := frames[|frames| - 1 := frames[|frames| - 1].(keypoints := kps)];
    }

    /** One iteration of the main loop for the image read from `image`, whose
        detector found `detected`: push a new frame, keep its keypoints on the
        vehicle, and name the pair of frames to match, if any. */
    method ProcessImage(image: string, detected: seq<KeyPoint>) returns (pair: Option<(DataFrame, DataFrame)>)
      requires Valid()
      modifies this
      ensures Valid()
      ensures frames == Pushed(old(frames), DataFrame(image, KeepOnVehicle(detected)))
      ensures pair == MatchPair(frames)
      ensures frames != [] && frames[|frames| - 1] == DataFrame(image, KeepOnVehicle(detected))
      ensures pair == if old(frames) == [] then None
                      else Some((old(frames)[|old(frames)| - 1], DataFrame(image, KeepOnVehicle(detected))))
    {
      ghost var before := frames;
      Push(DataFrame(image, []));
      var filtered := FilterKeypoints(detected);
      SetLastKeypoints(filtered);
      PushedThenSetLast(before, image, filtered);
      pair := MatchPair(frames);
      PushedMatchesPrevious(before, DataFrame(image, filtered));
    }
  }

  /** The frame the main loop builds for image number i of the run. */
  function FrameOf(detect: string -> seq<KeyPoint>, i: nat): DataFrame
  {
    var f := ImageFilename(ImgStartIndex + i);
    DataFrame(f, KeepOnVehicle(detect(f)))
  }

  /** The frames of the first n images of the run, in order. */
  function Frames(detect: string -> seq<KeyPoint>, n: nat): (fs: seq<DataFrame>)
    ensures |fs| == n && forall i :: 0 <= i < n ==> fs[i] == FrameOf(detect, i)
  {
    seq(n, i requires 0 <= i < n => FrameOf(detect, i))
  }

  /** Reading one more image appends its frame. */
  lemma FramesSnoc(detect: string -> seq<KeyPoint>, n: nat)
    ensures Frames(detect, n + 1) == Frames(detect, n) + [FrameOf(detect, n)]
  {
    assert Frames(detect, n + 1)[..n] == Frames(detect, n);
  }

  /** Number of images the main loop reads. */
  function ImageCount(): nat
  {
    ImgEndIndex - ImgStartIndex + 1
  }

  /** The pairs of neighbouring frames of `fs`, oldest pair first. */
  function ConsecutivePairs(fs: seq<DataFrame>): seq<(DataFrame, DataFrame)>
  {
    if |fs| <= 1 then [] else ConsecutivePairs(fs[..|fs| - 1]) + [(fs[|fs| - 2], fs[|fs| - 1])]
  }

  /** Appending a frame adds the pair (previous last frame, new frame), or
      nothing when the history was empty. */
  lemma ConsecutivePairsSnoc(fs: seq<DataFrame>, f: DataFrame)
    ensures ConsecutivePairs(fs + [f]) == ConsecutivePairs(fs) + if fs == [] then [] else [(fs[|fs| - 1], f)]
  {
    assert (fs + [f])[..|fs|] == fs;
  }

  /** A history of n frames has n - 1 neighbouring pairs, and pair i holds
      frames i and i + 1. */
  lemma {:induction false} ConsecutivePairsAt(fs: seq<DataFrame>)
    ensures |ConsecutivePairs(fs)| == if fs == [] then 0 else |fs| - 1
    ensures forall i {:trigger ConsecutivePairs(fs)[i]} :: 0 <= i < |ConsecutivePairs(fs)| ==>
      ConsecutivePairs(fs)[i] == (fs[i], fs[i + 1])
  {
    if |fs| > 1 {
      var init := fs[..|fs| - 1];
      ConsecutivePairsAt(init);
      var p := ConsecutivePairs(init);
      assert ConsecutivePairs(fs) == p + [(fs[|fs| - 2], fs[|fs| - 1])];
      forall i | 0 <= i < |ConsecutivePairs(fs)|
        ensures ConsecutivePairs(fs)[i] == (fs[i], fs[i + 1])
      {
        if i < |p| {
          assert ConsecutivePairs(fs)[i] == p[i] == (init[i], init[i + 1]);
        }
      }
    }
  }

  /** The main loop over all images, with `detect` standing for reading the
      image from its file and running the selected detector on it. Each image
      after the first is matched against the image before it. */
  method RunPipeline(detect: string -> seq<KeyPoint>) returns (matched: seq<(DataFrame, DataFrame)>)
    ensures |matched| == ImageCount() - 1
    ensures forall i {:trigger matched[i]} :: 0 <= i < |matched| ==> matched[i] == (FrameOf(detect, i), FrameOf(detect, i + 1))
  {
    var buffer := new FrameBuffer();
    matched := [];
    var imgIndex := 0;
    ghost var history: seq<DataFrame> := [];
    while imgIndex <= ImgEndIndex - ImgStartIndex
      invariant 0 <= imgIndex <= ImageCount()
      invariant buffer.Valid()
      invariant history == Frames(detect, imgIndex)
      invariant imgIndex == 0 ==> buffer.frames == []
      invariant imgIndex > 0 ==> buffer.frames != [] && buffer.frames[|buffer.frames| - 1] == history[imgIndex - 1]
      invariant matched == ConsecutivePairs(history)
    {
      var filename := ImageFilename(ImgStartIndex + imgIndex);
      var pair := buffer.ProcessImage(filename, detect(filename));
      ghost var frame := FrameOf(detect, imgIndex);
      assert buffer.frames[|buffer.frames| - 1] == frame;
      ConsecutivePairsSnoc(history, frame);
      FramesSnoc(detect, imgIndex);
      if pair.Some? {
        assert history != [] && pair.value == (history[|history| - 1], frame);
        matched := matched + [pair.value];
      } else {
        assert history == [];
      }
      history := history + [frame];
      imgIndex := imgIndex + 1;
    }
    ConsecutivePairsAt(history);
  }
}
