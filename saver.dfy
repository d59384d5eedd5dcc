/** The download loop `saver` of main.go: for each image record it makes up to
    six attempts (the first try and five retries) to fetch the image and write
    it to disk, and sends one progress tick per image it writes.

    The filesystem is the set of paths present on disk. What the network and the
    disk do during an attempt is given by an oracle, indexed by the image's
    position and the retry number. The progress channel is the sequence of
    positions of the images that were written. */
module ImageSaver {
  import opened GoStrings
  import opened Naming

  /** The fields of a search result that the saver reads. */
  datatype ImageData = ImageData(id: int, url: string, tags: seq<string>)

  /** A raw search result, as json.Unmarshal sees it. */
  datatype RawImage = Undecodable | Decodable(data: ImageData)

  /** What happens during one attempt: http.Get of the image, os.Create of the
      file, io.Copy of the body, os.Remove of a partly copied file (its error
      is ignored) and ioutil.WriteFile of the sidecar. `sidecarLeft` says
      whether WriteFile leaves a file at the sidecar path: it does when the
      write succeeds, and also when the write or close fails after the file
      was opened with O_CREATE|O_TRUNC; it does not when the open fails.
      Whether the write itself succeeded only decides a log line. */
  datatype AttemptEnv = AttemptEnv(fetched: bool, created: bool, copied: bool, removed: bool,
                                   sidecarLeft: bool)

  /** The environment of attempt `r` (0 = first try) of the image at position `i`. */
  type Oracle = (nat, nat) -> AttemptEnv

  const MaxRetries: nat := 5
  const MaxAttempts: nat := MaxRetries + 1

  function ImagePath(d: ImageData): string {
    ArtifactPath(ArtistDir(d.tags), d.id, d.url)
  }

  function MetadataPath(d: ImageData): string {
    SidecarPath(ArtistDir(d.tags), d.id)
  }

  /** Where an attempt writes: the image file and its JSON sidecar, or
      nowhere when the record does not decode. */
  datatype Target = NoTarget | Target(image: string, sidecar: string)

  function TargetOf(image: RawImage): Target {
    match image
    case Undecodable => NoTarget
    case Decodable(d) => Target(ImagePath(d), MetadataPath(d))
  }

  /** An attempt succeeds when the record decodes, nothing is present at its
      image path, and the fetch, the file creation and the copy all succeed.
      The sidecar write plays no part. */
  predicate Succeeds(disk: set<string>, t: Target, env: AttemptEnv) {
    t.Target? && t.image !in disk && env.fetched && env.created && env.copied
  }

  /** An attempt leaves a partly copied file behind when it gets as far as the
      copy, the copy fails and so does the removal of the file. */
  predicate LeavesPartial(disk: set<string>, t: Target, env: AttemptEnv) {
    t.Target? && t.image !in disk && env.fetched && env.created && !env.copied && !env.removed
  }

  /** The attempt changes what is on disk. */
  predicate Touches(disk: set<string>, t: Target, env: AttemptEnv) {
    Succeeds(disk, t, env) || LeavesPartial(disk, t, env)
  }

  /** The disk after a successful attempt: the image, and the sidecar when
      WriteFile left a file there. */
  function Stored(disk: set<string>, t: Target, env: AttemptEnv): set<string>
    requires t.Target?
  {
    disk + {t.image} + (if env.sidecarLeft then {t.sidecar} else {})
  }

  /** The disk after a failed attempt: unchanged, except for a partly copied
      file that could not be removed. */
  function AfterFailure(disk: set<string>, t: Target, env: AttemptEnv): set<string> {
    if LeavesPartial(disk, t, env) then disk + {t.image} else disk
  }

  /** One run of the attempt closure. */
  method Attempt(disk: set<string>, image: RawImage, env: AttemptEnv) returns (disk': set<string>, success: bool)
    ensures success <==> Succeeds(disk, TargetOf(image), env)
    ensures success ==> disk' == Stored(disk, TargetOf(image), env)
    ensures !success ==> disk' == AfterFailure(disk, TargetOf(image), env)
  {
    disk', success := disk, false;
    if image.Undecodable? {
      return;
    }
    var d := image.data;
    var dir := ArtistFromTags(d.tags);
    var p := dir + "/" + Itoa(d.id) + Ext(d.url);
    if p in disk' {
      // os.Stat found the file: return without setting success
      return;
    }
    if !env.fetched {
      return;
    }
    // os.Mkdir(dir): its error is ignored, and whether the file can then be
    // created is what env.created says
    if !env.created {
      return;
    }
    disk' := disk' + {p};
    if !env.copied {
      if env.removed {
        disk' := disk' - {p};
      }
      return;
    }
    success := true;
    if env.sidecarLeft {
      disk' := disk' + {dir + "/" + Itoa(d.id) + ".json"};
    }
  }

  /** What the retry loop did for one image: the disk afterwards, the number
      of attempts made and whether the image was saved. */
  datatype Outcome = Outcome(disk: set<string>, attempts: nat, saved: bool)

  /** The retry loop from retry `r` on, starting from the disk the previous
      attempts left: a success ends the loop, and a failure of retry 5 gives
      up. */
  function Retry(disk: set<string>, t: Target, i: nat, io: Oracle, r: nat): Outcome
    requires r <= MaxRetries
    decreases MaxRetries - r
  {
    var env := io(i, r);
    if Succeeds(disk, t, env) then Outcome(Stored(disk, t, env), r + 1, true)
    else if r == MaxRetries then Outcome(AfterFailure(disk, t, env), r + 1, false)
    else Retry(AfterFailure(disk, t, env), t, i, io, r + 1)
  }

  /** The inner `for` loop of saver: the retry counter starts at 0, a success
      ends the loop, and more than five retries give up. */
  method SaveImage(disk: set<string>, image: RawImage, i: nat, io: Oracle)
    returns (disk': set<string>, attempts: nat, saved: bool)
    ensures Outcome(disk', attempts, saved) == Retry(disk, TargetOf(image), i, io, 0)
  {
    ghost var t := TargetOf(image);
    var retries := 0;
    disk' := disk;
    while true
      invariant retries <= MaxRetries
      invariant Retry(disk', t, i, io, retries) == Retry(disk, t, i, io, 0)
      decreases MaxRetries - retries
    {
      var success;
      disk', success := Attempt(disk', image, io(i, retries));
      if success {
        return disk', retries + 1, true;
      }
      retries := retries + 1;
      if retries > MaxRetries {
        return disk', retries, false;
      }
      // "Retrying..." and a one-second sleep
    }
  }

  /** Attempt `f` is the first of the six that changes the disk the image
      started from. */
  predicate FirstTouch(disk: set<string>, t: Target, i: nat, io: Oracle, f: nat) {
    && f < MaxAttempts && Touches(disk, t, io(i, f))
    && forall r :: 0 <= r < f ==> !Touches(disk, t, io(i, r))
  }

  /** The outcome when attempt `f` is the first to change the disk: a success
      there ends the loop; a partial file there stays, and since it now sits
      at the image path every later attempt stops at os.Stat. */
  predicate OutcomeAt(disk: set<string>, t: Target, i: nat, io: Oracle, f: nat,
                      disk': set<string>, attempts: nat, saved: bool)
  {
    if Succeeds(disk, t, io(i, f)) then
      saved && attempts == f + 1 && disk' == Stored(disk, t, io(i, f))
    else
      !saved && attempts == MaxAttempts && t.Target? && disk' == disk + {t.image}
  }

  /** The outcome of the retry loop described without recursion: it is
      decided by the first attempt that changes the disk, and when none does,
      all six attempts fail and the disk is unchanged. */
  predicate ImageStep(disk: set<string>, t: Target, i: nat, io: Oracle,
                      disk': set<string>, attempts: nat, saved: bool)
  {
    && (forall f :: 0 <= f < MaxAttempts && FirstTouch(disk, t, i, io, f) ==>
          OutcomeAt(disk, t, i, io, f, disk', attempts, saved))
    && ((forall f :: 0 <= f < MaxAttempts ==> !Touches(disk, t, io(i, f))) ==>
          !saved && attempts == MaxAttempts && disk' == disk)
  }

  /** Once nothing changes the disk any more, every remaining attempt fails
      and the loop gives up after retry 5. */
  lemma {:induction false} RetryUntouched(disk: set<string>, t: Target, i: nat, io: Oracle, r: nat)
    requires r <= MaxRetries
    requires forall f :: r <= f < MaxAttempts ==> !Touches(disk, t, io(i, f))
    ensures Retry(disk, t, i, io, r) == Outcome(disk, MaxAttempts, false)
    decreases MaxRetries - r
  {
    assert !Touches(disk, t, io(i, r));
    if r < MaxRetries {
      RetryUntouched(disk, t, i, io, r + 1);
    }
  }

  /** A file at the image path, complete or partial, blocks every attempt. */
  lemma PresentBlocks(disk: set<string>, t: Target, i: nat, io: Oracle, r: nat)
    requires r <= MaxRetries && t.Target? && t.image in disk
    ensures Retry(disk, t, i, io, r) == Outcome(disk, MaxAttempts, false)
  {
    RetryUntouched(disk, t, i, io, r);
  }

  /** The retry loop from retry `r` on, starting from `disk`, meets the
      description from `r` on. */
  lemma {:induction false} RetryShape(disk: set<string>, t: Target, i: nat, io: Oracle, r: nat)
    requires r <= MaxRetries
    ensures var o := Retry(disk, t, i, io, r);
      && (forall f :: r <= f < MaxAttempts && Touches(disk, t, io(i, f)) &&
                      (forall k :: r <= k < f ==> !Touches(disk, t, io(i, k))) ==>
            OutcomeAt(disk, t, i, io, f, o.disk, o.attempts, o.saved))
      && ((forall f :: r <= f < MaxAttempts ==> !Touches(disk, t, io(i, f))) ==>
            o == Outcome(disk, MaxAttempts, false))
    decreases MaxRetries - r
  {
    var env := io(i, r);
    if Succeeds(disk, t, env) {
      assert Retry(disk, t, i, io, r) == Outcome(Stored(disk, t, env), r + 1, true);
    } else if LeavesPartial(disk, t, env) {
      var d := disk + {t.image};
      if r < MaxRetries {
        PresentBlocks(d, t, i, io, r + 1);
        assert Retry(disk, t, i, io, r) == Retry(d, t, i, io, r + 1);
      }
      assert Retry(disk, t, i, io, r) == Outcome(d, MaxAttempts, false);
    } else if r == MaxRetries {
      assert Retry(disk, t, i, io, r) == Outcome(disk, MaxAttempts, false);
    } else {
      RetryShape(disk, t, i, io, r + 1);
      assert Retry(disk, t, i, io, r) == Retry(disk, t, i, io, r + 1);
    }
  }

  /** The retry loop's outcome meets the description. */
  lemma RetryMeetsImageStep(disk: set<string>, t: Target, i: nat, io: Oracle)
    ensures var o := Retry(disk, t, i, io, 0);
      ImageStep(disk, t, i, io, o.disk, o.attempts, o.saved)
  {
    RetryShape(disk, t, i, io, 0);
  }

  /** When some attempt changes the disk, a first one does. */
  lemma {:induction false} FirstTouchExists(disk: set<string>, t: Target, i: nat, io: Oracle, f: nat)
    requires f < MaxAttempts && Touches(disk, t, io(i, f))
    ensures exists g :: FirstTouch(disk, t, i, io, g)
    decreases f
  {
    if exists r :: 0 <= r < f && Touches(disk, t, io(i, r)) {
      var r :| 0 <= r < f && Touches(disk, t, io(i, r));
      FirstTouchExists(disk, t, i, io, r);
    } else {
      assert FirstTouch(disk, t, i, io, f);
    }
  }

  /** Every outcome that meets ImageStep is Retry's outcome. */
  lemma ImageStepIsRetry(disk: set<string>, t: Target, i: nat, io: Oracle,
                         disk': set<string>, attempts: nat, saved: bool)
    requires ImageStep(disk, t, i, io, disk', attempts, saved)
    ensures Retry(disk, t, i, io, 0) == Outcome(disk', attempts, saved)
  {
    var o := Retry(disk, t, i, io, 0);
    RetryShape(disk, t, i, io, 0);
    if exists f :: 0 <= f < MaxAttempts && Touches(disk, t, io(i, f)) {
      var f :| 0 <= f < MaxAttempts && Touches(disk, t, io(i, f));
      FirstTouchExists(disk, t, i, io, f);
      var g: nat :| FirstTouch(disk, t, i, io, g);
      assert OutcomeAt(disk, t, i, io, g, o.disk, o.attempts, o.saved);
    }
  }

  /** What the description says of an image: between one and six attempts; a
      saved image was written on a disk that lacked it; an unsaved one used
      all six attempts and left at most a partial file at its image path. */
  lemma ImageStepFacts(disk: set<string>, t: Target, i: nat, io: Oracle,
                       disk': set<string>, attempts: nat, saved: bool)
    requires ImageStep(disk, t, i, io, disk', attempts, saved)
    ensures 1 <= attempts <= MaxAttempts
    ensures saved ==> t.Target? && t.image !in disk && disk' == Stored(disk, t, io(i, attempts - 1))
    ensures !saved ==> attempts == MaxAttempts
    ensures !saved ==> disk' == disk || (t.Target? && t.image !in disk && disk' == disk + {t.image})
  {
    if exists f :: 0 <= f < MaxAttempts && Touches(disk, t, io(i, f)) {
      var f :| 0 <= f < MaxAttempts && Touches(disk, t, io(i, f));
      FirstTouchExists(disk, t, i, io, f);
      var g: nat :| FirstTouch(disk, t, i, io, g);
      assert OutcomeAt(disk, t, i, io, g, disk', attempts, saved);
    }
  }

  /** The targets of the records, in order. */
  function Targets(images: seq<RawImage>): (ts: seq<Target>)
    ensures |ts| == |images|
    ensures forall k :: 0 <= k < |images| ==> ts[k] == TargetOf(images[k])
  {
    seq(|images|, k requires 0 <= k < |images| => TargetOf(images[k]))
  }

  /** The first `n` images of a run of saver, given by their targets `ts`:
      disks[i] is the disk before image i, attempts[i] the number of attempts
      it got, and `ticks` the positions of the images that sent a progress
      tick, in order. */
  ghost predicate RunPrefix(ts: seq<Target>, n: nat, io: Oracle, disks: seq<set<string>>,
                            attempts: seq<nat>, ticks: seq<nat>)
  {
    && n <= |ts| && |disks| == n + 1 && |attempts| == n
    && (forall k :: 0 <= k < |ticks| ==> ticks[k] < n)
    && (forall k, l :: 0 <= k < l < |ticks| ==> ticks[k] < ticks[l])
    && forall i :: 0 <= i < n ==>
         Retry(disks[i], ts[i], i, io, 0) == Outcome(disks[i + 1], attempts[i], i in ticks)
  }

  /** One more image processed extends the run by its outcome. */
  lemma RunPrefixExtend(ts: seq<Target>, n: nat, io: Oracle, disks: seq<set<string>>,
                        attempts: seq<nat>, ticks: seq<nat>, disk': set<string>, a: nat, saved: bool)
    requires RunPrefix(ts, n, io, disks, attempts, ticks) && n < |ts|
    requires Retry(disks[n], ts[n], n, io, 0) == Outcome(disk', a, saved)
    ensures RunPrefix(ts, n + 1, io, disks + [disk'], attempts + [a],
                      if saved then ticks + [n] else ticks)
  {
    var ticks' := if saved then ticks + [n] else ticks;
    forall i | 0 <= i < n
      ensures Retry((disks + [disk'])[i], ts[i], i, io, 0) ==
              Outcome((disks + [disk'])[i + 1], (attempts + [a])[i], i in ticks')
    {
      assert (disks + [disk'])[i] == disks[i] && (disks + [disk'])[i + 1] == disks[i + 1];
      assert (attempts + [a])[i] == attempts[i];
      assert i in ticks' <==> i in ticks;
    }
  }

  /** A whole run of saver over `images`. */
  ghost predicate Run(images: seq<RawImage>, io: Oracle, disks: seq<set<string>>,
                      attempts: seq<nat>, ticks: seq<nat>)
  {
    RunPrefix(Targets(images), |images|, io, disks, attempts, ticks)
  }

  /** saver: every image gets its own retry loop, whatever happened to the
      images before it, and each saved image sends exactly one tick. */
  method Saver(images: seq<RawImage>, disk0: set<string>, io: Oracle)
    returns (disk: set<string>, ticks: seq<nat>, attempts: seq<nat>, ghost disks: seq<set<string>>)
    ensures Run(images, io, disks, attempts, ticks)
    ensures disks[0] == disk0 && disks[|images|] == disk
  {
    ghost var ts := Targets(images);
    disk, ticks, attempts, disks := disk0, [], [], [disk0];
    for i := 0 to |images|
      invariant |disks| == i + 1 && disks[0] == disk0 && disks[i] == disk
      invariant RunPrefix(ts, i, io, disks, attempts, ticks)
    {
      var n, saved;
      disk, n, saved := SaveImage(disk, images[i], i, io);
      RunPrefixExtend(ts, i, io, disks, attempts, ticks, disk, n, saved);
      attempts := attempts + [n];
      if saved {
        ticks := ticks + [i];
      }
      disks := disks + [disk];
    }
  }

  // ------------------------------------------------------------ properties

  /** Attempt `r` would succeed on the disk the image started from, and no
      attempt before it left a partial file. */
  predicate SucceedsFirst(disk: set<string>, t: Target, i: nat, io: Oracle, r: nat) {
    && r < MaxAttempts && Succeeds(disk, t, io(i, r))
    && forall k :: 0 <= k < r ==> !LeavesPartial(disk, t, io(i, k))
  }

  /** A saved image was saved by an attempt that SucceedsFirst. */
  lemma SavedBySomeAttempt(disk: set<string>, t: Target, i: nat, io: Oracle)
    requires Retry(disk, t, i, io, 0).saved
    ensures exists r :: SucceedsFirst(disk, t, i, io, r)
  {
    var o := Retry(disk, t, i, io, 0);
    RetryMeetsImageStep(disk, t, i, io);
    ImageStepFacts(disk, t, i, io, o.disk, o.attempts, o.saved);
    FirstTouchExists(disk, t, i, io, o.attempts - 1);
    var g: nat :| FirstTouch(disk, t, i, io, g);
    assert OutcomeAt(disk, t, i, io, g, o.disk, o.attempts, o.saved);
    assert SucceedsFirst(disk, t, i, io, g);
  }

  /** An attempt that SucceedsFirst means the image is saved. */
  lemma SomeAttemptSaves(disk: set<string>, t: Target, i: nat, io: Oracle, r: nat)
    requires SucceedsFirst(disk, t, i, io, r)
    ensures Retry(disk, t, i, io, 0).saved
  {
    var o := Retry(disk, t, i, io, 0);
    RetryMeetsImageStep(disk, t, i, io);
    FirstTouchExists(disk, t, i, io, r);
    var g: nat :| FirstTouch(disk, t, i, io, g);
    assert g <= r;
    assert Succeeds(disk, t, io(i, g));
    assert OutcomeAt(disk, t, i, io, g, o.disk, o.attempts, o.saved);
  }

  /** An image is saved exactly when one of its six attempts would succeed on
      the disk it started from, with no earlier attempt having left a partial
      file behind. */
  lemma SavedIffSomeAttemptSucceeds(disk: set<string>, t: Target, i: nat, io: Oracle)
    ensures Retry(disk, t, i, io, 0).saved <==> exists r :: SucceedsFirst(disk, t, i, io, r)
  {
    if Retry(disk, t, i, io, 0).saved {
      SavedBySomeAttempt(disk, t, i, io);
    }
    if exists r :: SucceedsFirst(disk, t, i, io, r) {
      var r :| SucceedsFirst(disk, t, i, io, r);
      SomeAttemptSaves(disk, t, i, io, r);
    }
  }

  /** A partly copied file that the first disk-changing attempt leaves behind
      is never replaced: every later attempt finds it at os.Stat, the image is
      not saved and sends no tick, whatever the later attempts would do. */
  lemma PartialFileStays(disk: set<string>, t: Target, i: nat, io: Oracle, f: nat)
    requires f < MaxAttempts && LeavesPartial(disk, t, io(i, f))
    requires forall k :: 0 <= k < f ==> !Touches(disk, t, io(i, k))
    ensures Retry(disk, t, i, io, 0) == Outcome(disk + {t.image}, MaxAttempts, false)
  {
    RetryShape(disk, t, i, io, 0);
  }

  /** Every image of a run gets between one and six attempts, whatever
      happened to the images before it, and sends a tick exactly when one of
      its attempts would succeed on the disk it found, before any attempt left
      a partial file. */
  lemma EveryImageAttempted(images: seq<RawImage>, io: Oracle, disks: seq<set<string>>,
                            attempts: seq<nat>, ticks: seq<nat>, i: nat)
    requires Run(images, io, disks, attempts, ticks) && i < |images|
    ensures 1 <= attempts[i] <= MaxAttempts
    ensures i in ticks <==> exists r :: SucceedsFirst(disks[i], TargetOf(images[i]), i, io, r)
  {
    var ts := Targets(images);
    assert ts[i] == TargetOf(images[i]);
    RunStep(ts, io, disks, attempts, ticks, i);
    ImageStepFacts(disks[i], ts[i], i, io, disks[i + 1], attempts[i], i in ticks);
    SavedIffSomeAttemptSucceeds(disks[i], ts[i], i, io);
  }

  /** The step of image `i` of a run, described without recursion. */
  lemma RunStep(ts: seq<Target>, io: Oracle, disks: seq<set<string>>,
                attempts: seq<nat>, ticks: seq<nat>, i: nat)
    requires RunPrefix(ts, |ts|, io, disks, attempts, ticks) && i < |ts|
    ensures ImageStep(disks[i], ts[i], i, io, disks[i + 1], attempts[i], i in ticks)
  {
    RetryMeetsImageStep(disks[i], ts[i], i, io);
  }

  /** No file that is on disk is ever removed. */
  lemma {:induction false} RunKeepsFiles(ts: seq<Target>, io: Oracle, disks: seq<set<string>>,
                                         attempts: seq<nat>, ticks: seq<nat>, i: nat, j: nat)
    requires RunPrefix(ts, |ts|, io, disks, attempts, ticks)
    requires i <= j <= |ts|
    ensures disks[i] <= disks[j]
    decreases j - i
  {
    if i < j {
      RunKeepsFiles(ts, io, disks, attempts, ticks, i + 1, j);
      RunStep(ts, io, disks, attempts, ticks, i);
      ImageStepFacts(disks[i], ts[i], i, io, disks[i + 1], attempts[i], i in ticks);
    }
  }

  /** An image whose path is taken when its turn comes, by a file from
      before the run or one an earlier record left (its image, a partial
      file, or a sidecar at the same path), is never counted: it uses all six
      attempts, sends no tick and changes nothing. */
  lemma TakenPathNotCounted(images: seq<RawImage>, io: Oracle, disks: seq<set<string>>,
                            attempts: seq<nat>, ticks: seq<nat>, i: nat)
    requires Run(images, io, disks, attempts, ticks)
    requires i < |images| && images[i].Decodable? && ImagePath(images[i].data) in disks[i]
    ensures i !in ticks && attempts[i] == MaxAttempts && disks[i + 1] == disks[i]
  {
    var ts := Targets(images);
    assert ts[i].Target? && ts[i].image == ImagePath(images[i].data);
    RunStep(ts, io, disks, attempts, ticks, i);
  }

  /** An image whose file was already on disk is never counted: it uses all
      six attempts, sends no tick and changes nothing. */
  lemma PresentImageNotCounted(images: seq<RawImage>, io: Oracle, disks: seq<set<string>>,
                               attempts: seq<nat>, ticks: seq<nat>, i: nat)
    requires Run(images, io, disks, attempts, ticks)
    requires i < |images| && images[i].Decodable? && ImagePath(images[i].data) in disks[0]
    ensures i !in ticks && attempts[i] == MaxAttempts && disks[i + 1] == disks[i]
  {
    var ts := Targets(images);
    assert ts[i].Target? && ts[i].image == ImagePath(images[i].data);
    RunKeepsFiles(ts, io, disks, attempts, ticks, 0, i);
    RunStep(ts, io, disks, attempts, ticks, i);
  }

  /** Every tick stands for a target whose image file is on disk at the end
      and was not there at the start, and no two ticks share an image file. */
  lemma TicksAreNewTargets(ts: seq<Target>, io: Oracle, disks: seq<set<string>>,
                           attempts: seq<nat>, ticks: seq<nat>)
    requires RunPrefix(ts, |ts|, io, disks, attempts, ticks)
    ensures forall k :: 0 <= k < |ticks| ==>
      ts[ticks[k]].Target? && ts[ticks[k]].image in disks[|ts|] - disks[0]
    ensures forall k, l :: 0 <= k < l < |ticks| ==> ts[ticks[k]].image != ts[ticks[l]].image
  {
    forall k | 0 <= k < |ticks|
      ensures ts[ticks[k]].Target? && ts[ticks[k]].image in disks[|ts|] - disks[0]
    {
      var i := ticks[k];
      RunStep(ts, io, disks, attempts, ticks, i);
      ImageStepFacts(disks[i], ts[i], i, io, disks[i + 1], attempts[i], true);
      RunKeepsFiles(ts, io, disks, attempts, ticks, 0, i);
      RunKeepsFiles(ts, io, disks, attempts, ticks, i + 1, |ts|);
    }
    forall k, l | 0 <= k < l < |ticks|
      ensures ts[ticks[k]].image != ts[ticks[l]].image
    {
      var i, j := ticks[k], ticks[l];
      RunStep(ts, io, disks, attempts, ticks, i);
      ImageStepFacts(disks[i], ts[i], i, io, disks[i + 1], attempts[i], true);
      RunStep(ts, io, disks, attempts, ticks, j);
      ImageStepFacts(disks[j], ts[j], j, io, disks[j + 1], attempts[j], true);
      RunKeepsFiles(ts, io, disks, attempts, ticks, i + 1, j);
    }
  }

  /** Every tick stands for an image file that is on disk at the end and was
      not there at the start, and no two ticks stand for the same file: the
      count is at most the number of new image files. */
  lemma TicksAreNewFiles(images: seq<RawImage>, io: Oracle, disks: seq<set<string>>,
                         attempts: seq<nat>, ticks: seq<nat>)
    requires Run(images, io, disks, attempts, ticks)
    ensures forall k :: 0 <= k < |ticks| ==>
      images[ticks[k]].Decodable? &&
      ImagePath(images[ticks[k]].data) in disks[|images|] - disks[0]
    ensures forall k, l :: 0 <= k < l < |ticks| ==>
      ImagePath(images[ticks[k]].data) != ImagePath(images[ticks[l]].data)
  {
    var ts := Targets(images);
    TicksAreNewTargets(ts, io, disks, attempts, ticks);
    forall k | 0 <= k < |ticks|
      ensures images[ticks[k]].Decodable? && ts[ticks[k]].image == ImagePath(images[ticks[k]].data)
    {
      assert ts[ticks[k]] == TargetOf(images[ticks[k]]);
    }
  }

  /** Every path that is new after the first `n` images is the image file of
      one of them, or the sidecar of one that sent a tick. */
  lemma {:induction false} NewPathsFromTargets(ts: seq<Target>, io: Oracle, disks: seq<set<string>>,
                                               attempts: seq<nat>, ticks: seq<nat>, n: nat, p: string)
    requires RunPrefix(ts, |ts|, io, disks, attempts, ticks)
    requires n <= |ts| && p in disks[n] - disks[0]
    ensures exists i :: 0 <= i < n && ts[i].Target? && (p == ts[i].image || (i in ticks && p == ts[i].sidecar))
    decreases n
  {
    var m := n - 1;
    if p in disks[m] {
      NewPathsFromTargets(ts, io, disks, attempts, ticks, m, p);
    } else {
      RunStep(ts, io, disks, attempts, ticks, m);
      ImageStepFacts(disks[m], ts[m], m, io, disks[m + 1], attempts[m], m in ticks);
      assert ts[m].Target? && (p == ts[m].image || (m in ticks && p == ts[m].sidecar));
    }
  }

  /** The converse of TicksAreNewFiles: every path that is on disk at the end
      and was not there at the start is the image file of some record, or the
      sidecar of a record that sent a tick. An image file of a record without
      a tick is a partly copied file that could not be removed. */
  lemma NewFilesFromRecords(images: seq<RawImage>, io: Oracle, disks: seq<set<string>>,
                            attempts: seq<nat>, ticks: seq<nat>, p: string)
    requires Run(images, io, disks, attempts, ticks)
    requires p in disks[|images|] - disks[0]
    ensures exists i :: 0 <= i < |images| && images[i].Decodable? &&
                        (p == ImagePath(images[i].data) || (i in ticks && p == MetadataPath(images[i].data)))
  {
    var ts := Targets(images);
    NewPathsFromTargets(ts, io, disks, attempts, ticks, |images|, p);
    var i :| 0 <= i < |images| && ts[i].Target? && (p == ts[i].image || (i in ticks && p == ts[i].sidecar));
    assert ts[i] == TargetOf(images[i]);
  }
}
