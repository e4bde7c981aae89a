/**
 * The offline thumbnail script (scripts/generate-thumbnails.ts): which listed files
 * get a thumbnail, what each thumbnail is called, and the order and error handling
 * of `main`. The listings of public/images and public/videos are inputs; the
 * transcoding calls (`sharp`, `ffmpeg`) are oracles that either succeed or throw.
 * Paths are relative to the public directory.
 */
module ThumbnailScript {
  import opened Wrappers
  import opened Strings

  const ImageExtensions: seq<string> := ["jpg", "jpeg", "png", "webp"]
  const VideoExtensions: seq<string> := ["mp4", "webm", "mov"]

  /** `file.match(/\.(e1|e2|…)$/i)` for the alternatives `extensions`. */
  predicate HasExtensionIn(file: string, extensions: seq<string>)
  {
    exists e :: e in extensions && EndsWithExtension(file, e)
  }

  /** An image is processed exactly when it ends in .jpg, .jpeg, .png or .webp, in any case. */
  predicate IsImageToProcess(file: string)
  {
    HasExtensionIn(file, ImageExtensions)
  }

  /** A video is processed exactly when it is not ".DS_Store" and ends in .mp4, .webm or .mov, in any case. */
  predicate IsVideoToProcess(file: string)
  {
    file != ".DS_Store" && HasExtensionIn(file, VideoExtensions)
  }

  /** The selection ignores case: a name and its lower-case form are selected alike. */
  lemma SelectionIgnoresCase(file: string)
    ensures IsImageToProcess(file) <==> IsImageToProcess(LowerString(file))
    ensures IsVideoToProcess(file) <==> IsVideoToProcess(LowerString(file))
  {
    forall e ensures EndsWithExtension(file, e) <==> EndsWithExtension(LowerString(file), e) {
      EndsWithExtensionIgnoresCase(file, e);
    }
    if file == ".DS_Store" {
      assert !HasExtensionIn(file, VideoExtensions) by {
        forall e | e in VideoExtensions ensures !EndsWithExtension(file, e) {
          assert file[|file| - |e|..] == (if e == "mov" then "ore" else if e == "mp4" then "ore" else "tore");
        }
      }
    }
  }

  /** The two directories the script reads, and the thumbnail sub-directory of the same name. */
  datatype Dir = Images | Videos

  function DirName(dir: Dir): (r: string)
    ensures |r| == 6 && r[0] == (if dir == Images then 'i' else 'v')
  {
    if dir == Images then "images" else "videos"
  }

  /** `path.join(<dir>, file)`. */
  function InputPath(dir: Dir, file: string): string
  {
    DirName(dir) + "/" + file
  }

  /** The input path is the directory, a slash and then the listed name, unchanged. */
  lemma InputPathParts(dir: Dir, file: string)
    ensures var r := InputPath(dir, file);
      |r| == 7 + |file| && r[..7] == DirName(dir) + "/" && r[7..] == file
  {
  }

  /** `path.join(thumbnails, <dir>, path.parse(file).name + '.jpg')`. */
  function OutputPath(dir: Dir, file: string): string
    requires '/' !in file
  {
    "thumbnails/" + DirName(dir) + "/" + ParseName(file) + ".jpg"
  }

  /**
   * The thumbnail is always a .jpg in thumbnails/<dir>, whatever the input's extension:
   * a name without a dot keeps its name, and a name with an extension loses it.
   */
  lemma OutputPathIsJpegOfStem(dir: Dir, file: string)
    requires '/' !in file
    ensures var r := OutputPath(dir, file);
      |r| >= 4 && r[|r| - 4..] == ".jpg" &&
      ('.' !in file ==> r == "thumbnails/" + DirName(dir) + "/" + file + ".jpg") &&
      (forall p :: ExtensionAt(file, p) && p > 0 ==> r == "thumbnails/" + DirName(dir) + "/" + file[..p] + ".jpg")
  {
    var r := OutputPath(dir, file);
    assert r[|r| - 4..] == ".jpg";
    forall p | ExtensionAt(file, p) && p > 0
      ensures r == "thumbnails/" + DirName(dir) + "/" + file[..p] + ".jpg"
    {
      ExtensionAtIsLastDot(file, p);
    }
  }

  /** One thumbnail to generate: the source file and the thumbnail written. */
  datatype Job = Job(input: string, output: string)

  function JobFor(dir: Dir, file: string): Job
    requires '/' !in file
  {
    Job(InputPath(dir, file), OutputPath(dir, file))
  }

  /** The listed names are single path segments, as directory listings are. */
  predicate SegmentNames(files: seq<string>)
  {
    forall k :: 0 <= k < |files| ==> '/' !in files[k]
  }

  /** The jobs for the files of `files` that `dir`'s filter selects, in listing order. */
  function Jobs(dir: Dir, files: seq<string>): (r: seq<Job>)
    requires SegmentNames(files)
    ensures |r| <= |files|
  {
    if files == [] then []
    else
      var rest := Jobs(dir, files[..|files| - 1]);
      var file := files[|files| - 1];
      if Selected(dir, file) then rest + [JobFor(dir, file)] else rest
  }

  predicate Selected(dir: Dir, file: string)
  {
    if dir == Images then IsImageToProcess(file) else IsVideoToProcess(file)
  }

  /** A file gets a job exactly when it is listed and selected. */
  lemma {:induction false} JobsExactlySelected(dir: Dir, files: seq<string>, file: string)
    requires SegmentNames(files) && '/' !in file
    ensures JobFor(dir, file) in Jobs(dir, files) <==> file in files && Selected(dir, file)
    decreases |files|
  {
    if files != [] {
      var init := files[..|files| - 1];
      var last := files[|files| - 1];
      assert files == init + [last];
      JobsExactlySelected(dir, init, file);
      if JobFor(dir, file) == JobFor(dir, last) {
        InputPathParts(dir, file);
        InputPathParts(dir, last);
      }
    }
  }

  /** Files are handled in listing order: the jobs of a concatenated listing are concatenated. */
  lemma {:induction false} JobsInListingOrder(dir: Dir, first: seq<string>, second: seq<string>)
    requires SegmentNames(first) && SegmentNames(second)
    ensures SegmentNames(first + second)
    ensures Jobs(dir, first + second) == Jobs(dir, first) + Jobs(dir, second)
    decreases |second|
  {
    assert SegmentNames(first + second) by {
      forall k | 0 <= k < |first + second| ensures '/' !in (first + second)[k] {
        if k >= |first| { assert (first + second)[k] == second[k - |first|]; }
      }
    }
    if second != [] {
      var init := second[..|second| - 1];
      assert (first + second)[..|first + second| - 1] == first + init;
      assert (first + second)[|first + second| - 1] == second[|second| - 1];
      JobsInListingOrder(dir, first, init);
    } else {
      assert first + second == first;
    }
  }

  /** What the image loop has done: the jobs started, those that finished, and the error that stopped it. */
  datatype ImagePhase = ImagePhase(attempted: seq<Job>, generated: seq<Job>, failure: Option<string>)

  /**
   * The image loop over `files`: each selected file's thumbnail is generated in turn;
   * `imageError(job)` is the error `sharp` throws for that job, if any. An error is not
   * caught, so it ends the loop.
   */
  function ImageLoop(files: seq<string>, imageError: Job -> Option<string>): (p: ImagePhase)
    requires SegmentNames(files)
    ensures p.failure.None? ==> p.attempted == p.generated == Jobs(Images, files)
    ensures p.failure.Some? ==>
      (|p.attempted| > 0 && p.generated == p.attempted[..|p.attempted| - 1] &&
       imageError(p.attempted[|p.attempted| - 1]) == p.failure)
    ensures forall j :: j in p.generated ==> imageError(j).None?
  {
    if files == [] then ImagePhase([], [], None)
    else
      var p := ImageLoop(files[..|files| - 1], imageError);
      var file := files[|files| - 1];
      if p.failure.Some? || !IsImageToProcess(file) then p
      else
        var job := JobFor(Images, file);
        var err := imageError(job);
        var attempted := p.attempted + [job];
        assert attempted[..|attempted| - 1] == p.attempted;
        ImagePhase(attempted, if err.None? then p.generated + [job] else p.generated, err)
  }

  /** The images attempted are the first jobs of the listing, in listing order. */
  lemma {:induction false} ImageLoopFollowsListing(files: seq<string>, imageError: Job -> Option<string>)
    requires SegmentNames(files)
    ensures var p := ImageLoop(files, imageError); var jobs := Jobs(Images, files);
      |p.attempted| <= |jobs| && p.attempted == jobs[..|p.attempted|]
    decreases |files|
  {
    if files != [] {
      ImageLoopFollowsListing(files[..|files| - 1], imageError);
    }
  }

  /** Once an image has failed, the later files change nothing. */
  lemma {:induction false} ImageFailureStops(files: seq<string>, i: nat, imageError: Job -> Option<string>)
    requires SegmentNames(files) && i <= |files|
    requires ImageLoop(files[..i], imageError).failure.Some?
    ensures ImageLoop(files, imageError) == ImageLoop(files[..i], imageError)
    decreases |files| - i
  {
    if i < |files| {
      assert files[..i + 1][..i] == files[..i];
      assert ImageLoop(files[..i + 1], imageError) == ImageLoop(files[..i], imageError);
      ImageFailureStops(files, i + 1, imageError);
    } else {
      assert files[..i] == files;
    }
  }

  /** What the video loop has done: the jobs started and those that finished. */
  datatype VideoPhase = VideoPhase(attempted: seq<Job>, generated: seq<Job>)

  /**
   * The video loop over `files`: each selected file's thumbnail is generated in turn;
   * an error of `ffmpeg` (`videoError(job)`) is caught and the loop goes on.
   */
  function VideoLoop(files: seq<string>, videoError: Job -> Option<string>): (p: VideoPhase)
    requires SegmentNames(files)
    ensures p.attempted == Jobs(Videos, files)
    ensures forall j :: j in p.generated <==> j in p.attempted && videoError(j).None?
  {
    if files == [] then VideoPhase([], [])
    else
      var p := VideoLoop(files[..|files| - 1], videoError);
      var file := files[|files| - 1];
      if !IsVideoToProcess(file) then p
      else
        var job := JobFor(Videos, file);
        VideoPhase(p.attempted + [job], if videoError(job).None? then p.generated + [job] else p.generated)
  }

  /** How `main()` ends: normally, or with an error that reaches `main().catch`. */
  datatype Outcome = Completed | Rejected(error: string)

  datatype Run = Run(attempted: seq<Job>, generated: seq<Job>, outcome: Outcome)

  /** The run of `main()` on the given listings and transcoder outcomes. */
  function ExpectedRun(imageListing: Result<seq<string>>, videoListing: Result<seq<string>>,
                       imageError: Job -> Option<string>, videoError: Job -> Option<string>): Run
    requires imageListing.Success? ==> SegmentNames(imageListing.value)
    requires videoListing.Success? ==> SegmentNames(videoListing.value)
  {
    if imageListing.Failure? then Run([], [], Rejected(imageListing.error))
    else
      var images := ImageLoop(imageListing.value, imageError);
      if images.failure.Some? then Run(images.attempted, images.generated, Rejected(images.failure.value))
      else if videoListing.Failure? then Run(images.attempted, images.generated, Completed)
      else
        var videos := VideoLoop(videoListing.value, videoError);
        Run(images.attempted + videos.attempted, images.generated + videos.generated, Completed)
  }

  /** The image `for` loop of `main()`: stops at the first thumbnail that fails. */
  method GenerateImageThumbnails(imageFiles: seq<string>, imageError: Job -> Option<string>) returns (p: ImagePhase)
    requires SegmentNames(imageFiles)
    ensures p == ImageLoop(imageFiles, imageError)
  {
    var attempted: seq<Job> := [];
    var generated: seq<Job> := [];
    for i := 0 to |imageFiles|
      invariant ImageLoop(imageFiles[..i], imageError) == ImagePhase(attempted, generated, None)
    {
      assert imageFiles[..i + 1][..i] == imageFiles[..i];
      var file := imageFiles[i];
      if IsImageToProcess(file) {
        var job := JobFor(Images, file);
        attempted := attempted + [job];
        var err := imageError(job);
        if err.Some? {
          assert ImageLoop(imageFiles[..i + 1], imageError) == ImagePhase(attempted, generated, err);
          ImageFailureStops(imageFiles, i + 1, imageError);
          return ImagePhase(attempted, generated, err);
        }
        generated := generated + [job];
      }
    }
    assert imageFiles[..|imageFiles|] == imageFiles;
    return ImagePhase(attempted, generated, None);
  }

  /** The video `for` loop of `main()`: a failing thumbnail is caught and the loop goes on. */
  method GenerateVideoThumbnails(videoFiles: seq<string>, videoError: Job -> Option<string>) returns (p: VideoPhase)
    requires SegmentNames(videoFiles)
    ensures p == VideoLoop(videoFiles, videoError)
  {
    var attempted: seq<Job> := [];
    var generated: seq<Job> := [];
    for i := 0 to |videoFiles|
      invariant VideoLoop(videoFiles[..i], videoError) == VideoPhase(attempted, generated)
    {
      assert videoFiles[..i + 1][..i] == videoFiles[..i];
      var file := videoFiles[i];
      if IsVideoToProcess(file) {
        var job := JobFor(Videos, file);
        attempted := attempted + [job];
        if videoError(job).None? {
          generated := generated + [job];
        }
      }
    }
    assert videoFiles[..|videoFiles|] == videoFiles;
    return VideoPhase(attempted, generated);
  }

  /**
   * `main()`: the image loop, then the video loop inside its own `try`. A failed
   * images listing or image thumbnail rejects; a failed videos listing or video
   * thumbnail is caught.
   */
  method GenerateThumbnails(imageListing: Result<seq<string>>, videoListing: Result<seq<string>>,
              imageError: Job -> Option<string>, videoError: Job -> Option<string>) returns (run: Run)
    requires imageListing.Success? ==> SegmentNames(imageListing.value)
    requires videoListing.Success? ==> SegmentNames(videoListing.value)
    ensures run == ExpectedRun(imageListing, videoListing, imageError, videoError)
  {
    if imageListing.Failure? {
      return Run([], [], Rejected(imageListing.error));
    }
    var images := GenerateImageThumbnails(imageListing.value, imageError);
    if images.failure.Some? {
      return Run(images.attempted, images.generated, Rejected(images.failure.value));
    }
    if videoListing.Failure? {
      return Run(images.attempted, images.generated, Completed);
    }
    var videos := GenerateVideoThumbnails(videoListing.value, videoError);
    return Run(images.attempted + videos.attempted, images.generated + videos.generated, Completed);
  }

  /** A failed images listing reaches `main().catch`: nothing is generated. */
  lemma ImageListingFailureRejects(error: string, videoListing: Result<seq<string>>,
                                   imageError: Job -> Option<string>, videoError: Job -> Option<string>)
    requires videoListing.Success? ==> SegmentNames(videoListing.value)
    ensures ExpectedRun(Failure(error), videoListing, imageError, videoError) == Run([], [], Rejected(error))
  {
  }

  /**
   * An image whose thumbnail fails rejects `main()` with that error: the run ends
   * after the jobs of the listing up to the failing one, and no video is attempted.
   */
  lemma ImageFailureRejects(imageFiles: seq<string>, videoListing: Result<seq<string>>,
                            imageError: Job -> Option<string>, videoError: Job -> Option<string>)
    requires SegmentNames(imageFiles)
    requires videoListing.Success? ==> SegmentNames(videoListing.value)
    requires ImageLoop(imageFiles, imageError).failure.Some?
    ensures var run := ExpectedRun(Success(imageFiles), videoListing, imageError, videoError);
      var jobs := Jobs(Images, imageFiles);
      run.outcome == Rejected(ImageLoop(imageFiles, imageError).failure.value) &&
      0 < |run.attempted| <= |jobs| && run.attempted == jobs[..|run.attempted|] &&
      imageError(run.attempted[|run.attempted| - 1]).Some? &&
      (forall j :: j in run.attempted ==> j in jobs)
  {
    ImageLoopFollowsListing(imageFiles, imageError);
    var run := ExpectedRun(Success(imageFiles), videoListing, imageError, videoError);
    var jobs := Jobs(Images, imageFiles);
    forall j | j in run.attempted ensures j in jobs {
      var k :| 0 <= k < |run.attempted| && run.attempted[k] == j;
      assert jobs[k] == j;
    }
  }

  /** A failed videos listing is caught: the run completes with the image thumbnails. */
  lemma VideoListingFailureIsCaught(imageFiles: seq<string>, error: string,
                                    imageError: Job -> Option<string>, videoError: Job -> Option<string>)
    requires SegmentNames(imageFiles)
    requires ImageLoop(imageFiles, imageError).failure.None?
    ensures var run := ExpectedRun(Success(imageFiles), Failure(error), imageError, videoError);
      run.outcome == Completed && run.attempted == run.generated == Jobs(Images, imageFiles)
  {
  }

  /**
   * A failing video does not stop the others: once the images are done, every
   * selected video is attempted, and every one whose transcoding succeeds is generated.
   */
  lemma VideoFailuresAreIsolated(imageFiles: seq<string>, videoFiles: seq<string>,
                                 imageError: Job -> Option<string>, videoError: Job -> Option<string>, file: string)
    requires SegmentNames(imageFiles) && SegmentNames(videoFiles)
    requires ImageLoop(imageFiles, imageError).failure.None?
    requires file in videoFiles && IsVideoToProcess(file)
    ensures var run := ExpectedRun(Success(imageFiles), Success(videoFiles), imageError, videoError);
      run.outcome == Completed &&
      JobFor(Videos, file) in run.attempted &&
      (videoError(JobFor(Videos, file)).None? <==> JobFor(Videos, file) in run.generated)
  {
    assert '/' !in file;
    JobsExactlySelected(Videos, videoFiles, file);
    var job := JobFor(Videos, file);
    var images := ImageLoop(imageFiles, imageError);
    VideoJobIsNoImageJob(imageFiles, file);
  }

  /** The job of a video is never among the jobs of the images: their inputs lie in different directories. */
  lemma VideoJobIsNoImageJob(imageFiles: seq<string>, file: string)
    requires SegmentNames(imageFiles) && '/' !in file
    ensures JobFor(Videos, file) !in Jobs(Images, imageFiles)
  {
    if JobFor(Videos, file) in Jobs(Images, imageFiles) {
      JobsReadFrom(Images, imageFiles, JobFor(Videos, file));
      var f :| f in imageFiles && Selected(Images, f) && '/' !in f && JobFor(Videos, file) == JobFor(Images, f);
      InputsDiffer(f, file);
    }
  }

  /** An input path under images/ is never one under videos/. */
  lemma InputsDiffer(image: string, video: string)
    ensures InputPath(Images, image) != InputPath(Videos, video)
  {
    assert InputPath(Images, image)[0] == 'i' && InputPath(Videos, video)[0] == 'v';
  }

  /** Every job of `dir` is the job of a listed, selected file of `dir`. */
  lemma {:induction false} JobsReadFrom(dir: Dir, files: seq<string>, job: Job)
    requires SegmentNames(files)
    requires job in Jobs(dir, files)
    ensures exists f :: f in files && Selected(dir, f) && '/' !in f && job == JobFor(dir, f)
    decreases |files|
  {
    var init := files[..|files| - 1];
    var last := files[|files| - 1];
    if job in Jobs(dir, init) {
      JobsReadFrom(dir, init, job);
      var f :| f in init && Selected(dir, f) && '/' !in f && job == JobFor(dir, f);
      assert f in files;
    } else {
      assert last in files && Selected(dir, last) && job == JobFor(dir, last);
    }
  }
}
