/** Concurrent publishers mirroring releases into one bucket
    (workers/downloads/scripts/sync_r2.py, synchronize and publish_index),
    as a state machine: one step is one request to the bucket. */
module Publishing {
  import opened Bytes
  import opened Wrappers
  import opened ReleaseIndex

  type Content = seq<byte>

  /** A stored object with the digest recorded in its metadata. */
  datatype Object = Object(content: Content, sha256: string)

  /** An accepted write of index.json and the publisher that made it. */
  datatype Write = Write(writer: nat, index: Index)

  /** The bucket. `log` is the history of index.json, oldest first; an entity
      tag is taken to identify the index contents it was issued for. */
  datatype Store = Store(
    objects: map<(string, string), Object>,
    manifests: map<string, Release>,
    index: Option<Index>,
    log: seq<Write>)

  datatype Asset = Asset(name: string, size: nat, digest: Option<string>)

  /** What one call of synchronize is asked to publish. */
  datatype Order = Order(tag: string, publishedAt: string, prerelease: bool, assets: seq<Asset>, latestTag: string)

  datatype Transfer =
    | Start
    | Probing(digest: string)
    | Absent
    | Fetched(content: Content)
    | Uploaded(size: nat, digest: string)
    | Checking(size: nat, digest: string)
    | Done(file: File)
    | Broken

  datatype Stage =
    | Transferring
    | SumsUpload
    | SumsUploaded
    | SumsChecking
    | ManifestRead
    | ManifestWrite
    | ManifestReread
    | IndexRead(attempt: nat, begun: nat)
    | IndexWrite(attempt: nat, begun: nat, seen: Option<Index>, readAt: nat)
    | Published
    | GaveUp(begun: nat)
    | Raised

  datatype Job = Job(order: Order, transfers: seq<Transfer>, stage: Stage)

  datatype State = State(store: Store, jobs: seq<Job>)

  /** The digest function, the text of a checksum list, and whether the client
      library resends requests whose answer was lost. */
  datatype World = World(hash: Content -> string, sums: seq<File> -> Content, resends: bool)

  const SUMS := "SHA256SUMS"
  const ATTEMPTS := 5

  /** How a conditional write ended: what the caller is told, and whether the
      request took effect. */
  datatype Reply = Accepted | Conflict(resent: bool) | Failed(tookEffect: bool)

  // ------------------------------------------------------------------ steps

  ghost predicate Applies(reply: Reply) {
    match reply
    case Accepted => true
    case Conflict(resent) => resent
    case Failed(tookEffect) => tookEffect
  }

  /** A conditional write takes effect only where its condition holds. It is
      refused where the condition fails, or, when the client library resends a
      request whose answer was lost, because its own first copy is in the way. */
  ghost predicate Possible(w: World, condition: bool, reply: Reply) {
    && (Applies(reply) ==> condition)
    && (reply.Conflict? ==> if reply.resent then w.resends else !condition)
  }

  ghost predicate PutObject(w: World, st: Store, st': Store, key: (string, string), o: Object, reply: Reply) {
    && Possible(w, key !in st.objects, reply)
    && st' == if Applies(reply) then st.(objects := st.objects[key := o]) else st
  }

  ghost predicate PutManifest(w: World, st: Store, st': Store, r: Release, reply: Reply) {
    && Possible(w, r.tag !in st.manifests, reply)
    && st' == if Applies(reply) then st.(manifests := st.manifests[r.tag := r]) else st
  }

  /** Replacing index.json provided it is still what `seen` says. */
  ghost predicate SwapIndex(w: World, st: Store, st': Store, seen: Option<Index>, p: nat, updated: Index,
                            reply: Reply) {
    && Possible(w, st.index == seen, reply)
    && st' == if Applies(reply) then st.(index := Some(updated), log := st.log + [Write(p, updated)]) else st
  }

  ghost predicate HeadMatches(st: Store, key: (string, string), size: nat, digest: string) {
    key in st.objects && |st.objects[key].content| == size && st.objects[key].sha256 == digest
  }

  ghost predicate ReadbackMatches(w: World, st: Store, key: (string, string), digest: string) {
    key in st.objects && w.hash(st.objects[key].content) == digest
  }

  ghost predicate TransferStep(w: World, tag: string, a: Asset, t: Transfer, t': Transfer, st: Store, st': Store) {
    var key := (tag, a.name);
    match t
    case Start =>
      st' == st && t' == (if a.digest.None? || key !in st.objects then Absent
                          else if HeadMatches(st, key, a.size, a.digest.value) then Probing(a.digest.value)
                          else Broken)
    case Probing(digest) =>
      st' == st && t' == (if key !in st.objects then Absent
                          else if ReadbackMatches(w, st, key, digest) then Done(File(a.name, a.size, digest))
                          else Broken)
    case Absent =>
      st' == st && t'.Fetched? && |t'.content| == a.size && (a.digest.Some? ==> w.hash(t'.content) == a.digest.value)
    case Fetched(content) =>
      exists reply :: PutObject(w, st, st', key, Object(content, w.hash(content)), reply)
        && t' == if reply.Failed? then Broken else Uploaded(|content|, w.hash(content))
    case Uploaded(size, digest) =>
      st' == st && t' == if HeadMatches(st, key, size, digest) then Checking(size, digest) else Broken
    case Checking(size, digest) =>
      st' == st && t' == if ReadbackMatches(w, st, key, digest) then Done(File(a.name, a.size, digest)) else Broken
    case Done(_) => false
    case Broken => false
  }

  ghost predicate AllDone(job: Job) {
    forall i | 0 <= i < |job.transfers| :: job.transfers[i].Done?
  }

  ghost function Files(job: Job): (files: seq<File>)
    requires AllDone(job)
  {
    seq(|job.transfers|, i requires 0 <= i < |job.transfers| => job.transfers[i].file)
  }

  ghost function Manifest(job: Job): Release
    requires AllDone(job)
  {
    Release(job.order.tag, job.order.publishedAt, job.order.prerelease, Files(job))
  }

  ghost predicate StageStep(w: World, p: nat, job: Job, stage': Stage, st: Store, st': Store)
    requires job.stage != Transferring ==> AllDone(job)
  {
    var tag, key := job.order.tag, (job.order.tag, SUMS);
    match job.stage
    case Transferring =>
      st' == st && AllDone(job) && stage' == SumsUpload
    case SumsUpload =>
      var text := w.sums(Files(job));
      exists reply :: PutObject(w, st, st', key, Object(text, w.hash(text)), reply)
        && stage' == if reply.Failed? then Raised else SumsUploaded
    case SumsUploaded =>
      var text := w.sums(Files(job));
      st' == st && stage' == if HeadMatches(st, key, |text|, w.hash(text)) then SumsChecking else Raised
    case SumsChecking =>
      st' == st && stage' == if ReadbackMatches(w, st, key, w.hash(w.sums(Files(job)))) then ManifestRead else Raised
    case ManifestRead =>
      st' == st && stage' == (if tag !in st.manifests then ManifestWrite
                              else if st.manifests[tag] == Manifest(job) then IndexRead(0, |st.log|)
                              else Raised)
    case ManifestWrite =>
      exists reply :: PutManifest(w, st, st', Manifest(job), reply)
        && stage' == (if reply.Accepted? then IndexRead(0, |st.log|)
                      else if reply.Conflict? then ManifestReread
                      else Raised)
    case ManifestReread =>
      st' == st && stage' == if tag in st.manifests && st.manifests[tag] == Manifest(job) then IndexRead(0, |st.log|)
                             else Raised
    case IndexRead(attempt, begun) =>
      st' == st && stage' == IndexWrite(attempt, begun, st.index, |st.log|)
    case IndexWrite(attempt, begun, seen, _) =>
      var merged := Merge(seen, Manifest(job), job.order.latestTag);
      if merged.Err? then st' == st && stage' == Raised
      else (exists reply :: SwapIndex(w, st, st', seen, p, merged.value, reply)
              && stage' == (if reply.Accepted? then Published
                            else if reply.Failed? then Raised
                            else if attempt + 1 < ATTEMPTS then IndexRead(attempt + 1, begun)
                            else GaveUp(begun)))
    case Published => false
    case GaveUp(_) => false
    case Raised => false
  }

  /** One request by publisher p. A publisher can also fail at any point. */
  ghost predicate JobStep(w: World, p: nat, job: Job, job': Job, st: Store, st': Store) {
    || (exists i: nat :: TransferAt(w, job, job', st, st', i))
    || ((job.stage != Transferring ==> AllDone(job))
        && job' == job.(stage := job'.stage)
        && StageStep(w, p, job, job'.stage, st, st'))
    || (st' == st && (job' == job.(stage := Raised) || exists i: nat :: BreaksAt(job, job', i)))
  }

  ghost predicate TransferAt(w: World, job: Job, job': Job, st: Store, st': Store, i: nat) {
    && job.stage == Transferring
    && i < |job.transfers| == |job.order.assets| == |job'.transfers|
    && job' == job.(transfers := job.transfers[i := job'.transfers[i]])
    && TransferStep(w, job.order.tag, job.order.assets[i], job.transfers[i], job'.transfers[i], st, st')
  }

  ghost predicate BreaksAt(job: Job, job': Job, i: nat) {
    job.stage == Transferring && i < |job.transfers| && job' == job.(transfers := job.transfers[i := Broken])
  }

  ghost predicate NextBy(w: World, s: State, s': State, p: nat) {
    && p < |s.jobs| == |s'.jobs|
    && s'.jobs == s.jobs[p := s'.jobs[p]]
    && JobStep(w, p, s.jobs[p], s'.jobs[p], s.store, s'.store)
  }

  ghost predicate Next(w: World, s: State, s': State) {
    s' == s || exists p: nat :: NextBy(w, s, s', p)
  }

  /** Publishers about to start on a bucket that is already consistent, such as
      an empty one. Objects may be there from earlier, unfinished attempts. */
  ghost predicate Init(w: World, s: State) {
    && StoreInv(w, s.store)
    && forall p | 0 <= p < |s.jobs| :: Fresh(s.jobs[p])
  }

  ghost predicate Fresh(job: Job) {
    && job.stage == Transferring
    && |job.transfers| == |job.order.assets|
    && forall i | 0 <= i < |job.transfers| :: job.transfers[i] == Start
  }

  ghost predicate Run(w: World, trace: seq<State>) {
    && trace != [] && Init(w, trace[0])
    && forall i | 0 <= i < |trace| - 1 :: Next(w, trace[i], trace[i + 1])
  }

  // -------------------------------------------------------------- invariant

  /** The object of a listed file is stored, with the recorded size and digest. */
  ghost predicate Backed(w: World, st: Store, tag: string, f: File) {
    HeadMatches(st, (tag, f.name), f.size, f.sha256) && ReadbackMatches(w, st, (tag, f.name), f.sha256)
  }

  ghost predicate SumsBacked(w: World, st: Store, tag: string, files: seq<File>) {
    var text := w.sums(files);
    HeadMatches(st, (tag, SUMS), |text|, w.hash(text)) && ReadbackMatches(w, st, (tag, SUMS), w.hash(text))
  }

  ghost predicate Complete(w: World, st: Store, r: Release) {
    && (forall k | 0 <= k < |r.files| :: Backed(w, st, r.tag, r.files[k]))
    && SumsBacked(w, st, r.tag, r.files)
  }

  /** A release is listed exactly as its manifest says. */
  ghost predicate ListedAsPublished(st: Store, r: Release) {
    r.tag in st.manifests && st.manifests[r.tag] == r
  }

  ghost predicate StoreInv(w: World, st: Store) {
    && (forall t | t in st.manifests :: st.manifests[t].tag == t && Complete(w, st, st.manifests[t]))
    && (st.index.Some? ==>
          && st.index.value.schema == SCHEMA
          && forall k | 0 <= k < |st.index.value.releases| :: ListedAsPublished(st, st.index.value.releases[k]))
  }

  ghost predicate InIndex(st: Store, r: Release) {
    st.index.Some? && r in st.index.value.releases
  }

  /** Writes of index.json by publishers other than p. */
  ghost function Foreign(log: seq<Write>, p: nat): nat {
    if log == [] then 0
    else Foreign(log[..|log| - 1], p) + if log[|log| - 1].writer != p then 1 else 0
  }

  /** The digest is the one announced for the asset, if one was. */
  ghost predicate Announced(a: Asset, digest: string) {
    a.digest.Some? ==> digest == a.digest.value
  }

  ghost predicate TransferInv(w: World, st: Store, tag: string, a: Asset, t: Transfer) {
    match t
    case Probing(digest) => HeadMatches(st, (tag, a.name), a.size, digest) && Announced(a, digest)
    case Fetched(content) => |content| == a.size && Announced(a, w.hash(content))
    case Uploaded(size, digest) => size == a.size && Announced(a, digest)
    case Checking(size, digest) =>
      size == a.size && HeadMatches(st, (tag, a.name), size, digest) && Announced(a, digest)
    case Done(file) =>
      file.name == a.name && file.size == a.size && Backed(w, st, tag, file) && Announced(a, file.sha256)
    case _ => true
  }

  ghost predicate TransfersInv(w: World, st: Store, job: Job) {
    && |job.transfers| == |job.order.assets|
    && forall i | 0 <= i < |job.transfers| :: TransferInv(w, st, job.order.tag, job.order.assets[i], job.transfers[i])
  }

  /** A resent write of the job's own has already put its release in the index. */
  ghost predicate OwnWrite(w: World, st: Store, job: Job)
    requires AllDone(job)
  {
    w.resends && InIndex(st, Manifest(job))
  }

  ghost predicate StageInv(w: World, st: Store, p: nat, job: Job)
    requires job.stage != Transferring && job.stage != Raised ==> AllDone(job)
  {
    var tag := job.order.tag;
    match job.stage
    case SumsChecking =>
      var text := w.sums(Files(job));
      HeadMatches(st, (tag, SUMS), |text|, w.hash(text))
    case ManifestRead => SumsBacked(w, st, tag, Files(job))
    case ManifestWrite => SumsBacked(w, st, tag, Files(job))
    case IndexRead(attempt, begun) =>
      && ListedAsPublished(st, Manifest(job))
      && begun <= |st.log|
      && (Foreign(st.log[begun..], p) >= attempt || OwnWrite(w, st, job))
    case IndexWrite(attempt, begun, seen, readAt) =>
      && ListedAsPublished(st, Manifest(job))
      && begun <= readAt <= |st.log|
      && (Foreign(st.log[begun..readAt], p) >= attempt || OwnWrite(w, st, job))
      && (forall k | readAt <= k < |st.log| :: st.log[k].writer != p)
      && (readAt == |st.log| ==> st.index == seen)
    case Published => ListedAsPublished(st, Manifest(job)) && InIndex(st, Manifest(job))
    case GaveUp(begun) =>
      && ListedAsPublished(st, Manifest(job))
      && begun <= |st.log|
      && (Foreign(st.log[begun..], p) >= ATTEMPTS || OwnWrite(w, st, job))
    case _ => true
  }

  ghost predicate JobInv(w: World, st: Store, p: nat, job: Job) {
    && TransfersInv(w, st, job)
    && (job.stage != Transferring && job.stage != Raised ==> AllDone(job))
    && StageInv(w, st, p, job)
  }

  ghost predicate Inv(w: World, s: State) {
    && StoreInv(w, s.store)
    && forall p | 0 <= p < |s.jobs| :: JobInv(w, s.store, p, s.jobs[p])
  }

  /** Nothing stored is ever replaced or removed, except that the index may
      gain releases. */
  ghost predicate Grows(st: Store, st': Store) {
    && (forall k | k in st.objects :: k in st'.objects && st'.objects[k] == st.objects[k])
    && (forall t | t in st.manifests :: t in st'.manifests && st'.manifests[t] == st.manifests[t])
    && (forall r | InIndex(st, r) :: InIndex(st', r))
    && st.log <= st'.log
    && (st'.log == st.log ==> st'.index == st.index)
  }

  // ----------------------------------------------------------------- proofs

  lemma {:induction false} ForeignAppend(a: seq<Write>, b: seq<Write>, p: nat)
    ensures Foreign(a + b, p) == Foreign(a, p) + Foreign(b, p)
  {
    if b == [] {
      assert a + b == a;
    } else {
      var c := b[..|b| - 1];
      assert (a + b)[..|a + b| - 1] == a + c;
      ForeignAppend(a, c, p);
    }
  }

  /** Appending writes never lowers the foreign count of a stretch of history,
      and raises it when the appended part has a foreign write. */
  lemma ForeignGrows(log: seq<Write>, log': seq<Write>, from: nat, mid: nat, p: nat)
    requires from <= mid <= |log| && log <= log'
    ensures Foreign(log'[from..], p) >= Foreign(log'[from..mid], p) == Foreign(log[from..mid], p)
    ensures mid < |log'| && log'[|log'| - 1].writer != p ==> Foreign(log'[from..], p) > Foreign(log[from..mid], p)
  {
    assert log'[from..] == log'[from..mid] + log'[mid..];
    assert log'[from..mid] == log[from..mid];
    ForeignAppend(log'[from..mid], log'[mid..], p);
  }

  lemma CompleteGrows(w: World, st: Store, st': Store, r: Release)
    requires Grows(st, st') && Complete(w, st, r)
    ensures Complete(w, st', r)
  {
  }

  /** What publisher q relies on survives any growth of the bucket in which q
      itself wrote no index. */
  lemma JobInvStable(w: World, st: Store, st': Store, q: nat, job: Job)
    requires Grows(st, st') && JobInv(w, st, q, job)
    requires forall k | |st.log| <= k < |st'.log| :: st'.log[k].writer != q
    ensures JobInv(w, st', q, job)
  {
    TransfersGrow(w, st, st', job);
    GrowthFacts(st, st');
    hide TransfersInv, Foreign, Grows, InIndex;
    match job.stage {
      case IndexRead(_, begun) =>
        ForeignGrows(st.log, st'.log, begun, |st.log|, q);
        assert st.log[begun..] == st.log[begun..|st.log|];
      case GaveUp(begun) =>
        ForeignGrows(st.log, st'.log, begun, |st.log|, q);
        assert st.log[begun..] == st.log[begun..|st.log|];
      case IndexWrite(_, begun, _, readAt) =>
        ForeignGrows(st.log, st'.log, begun, readAt, q);
      case _ =>
    }
  }

  /** What growth means for the parts of the bucket a publisher relies on. */
  lemma GrowthFacts(st: Store, st': Store)
    requires Grows(st, st')
    ensures forall r | InIndex(st, r) :: InIndex(st', r)
    ensures forall k | k in st.objects :: k in st'.objects && st'.objects[k] == st.objects[k]
    ensures forall t | t in st.manifests :: t in st'.manifests && st'.manifests[t] == st.manifests[t]
    ensures st.log <= st'.log && (|st'.log| == |st.log| ==> st'.log == st.log && st'.index == st.index)
  {
  }

  /** Merging into the current index keeps what it lists and adds the manifest. */
  lemma MergeLists(w: World, st: Store, r: Release, latestTag: string)
    requires StoreInv(w, st) && ListedAsPublished(st, r)
    ensures var merged := Merge(st.index, r, latestTag);
            && merged.Ok? && merged.value.schema == SCHEMA && r in merged.value.releases
            && (forall x | InIndex(st, x) :: x in merged.value.releases)
            && (forall k | 0 <= k < |merged.value.releases| :: ListedAsPublished(st, merged.value.releases[k]))
  {
    MergeReleases(st.index, r, latestTag);
    var merged := Merge(st.index, r, latestTag).value.releases;
    var rs := ReleasesOf(st.index);
    var m := Merged(st.index, r);
    assert r in merged;
    forall x | InIndex(st, x) ensures x in merged {
      ByTagCovers(rs, x);
      ByTagFrom(rs, x.tag);
      assert ListedAsPublished(st, x) && ListedAsPublished(st, ByTag(rs)[x.tag]);
      Listed(m, merged, x.tag);
    }
    forall k | 0 <= k < |merged| ensures ListedAsPublished(st, merged[k]) {
      var x := merged[k];
      assert x in merged;
      if x.tag != r.tag { ByTagFrom(rs, x.tag); }
    }
  }

  lemma TransferStepSafe(w: World, tag: string, a: Asset, t: Transfer, t': Transfer, st: Store, st': Store)
    requires StoreInv(w, st) && TransferInv(w, st, tag, a, t) && TransferStep(w, tag, a, t, t', st, st')
    ensures Grows(st, st') && TransferInv(w, st', tag, a, t') && StoreInv(w, st')
    ensures st'.log == st.log
  {
    hide Complete;
    assert st'.manifests == st.manifests && st'.index == st.index && st'.log == st.log;
    ManifestsStayComplete(w, st, st');
  }

  lemma StageStepSafe(w: World, p: nat, job: Job, stage': Stage, st: Store, st': Store)
    requires StoreInv(w, st) && JobInv(w, st, p, job)
    requires job.stage != Transferring ==> AllDone(job)
    requires StageStep(w, p, job, stage', st, st')
    ensures Grows(st, st') && StoreInv(w, st') && JobInv(w, st', p, job.(stage := stage'))
    ensures forall k | |st.log| <= k < |st'.log| :: st'.log[k].writer == p
  {
    if job.stage == ManifestWrite {
      ManifestWriteSafe(w, p, job, stage', st, st');
    } else if job.stage.IndexWrite? {
      IndexWriteSafe(w, p, job, stage', st, st');
    } else if job.stage == SumsUpload {
      SumsUploadSafe(w, p, job, stage', st, st');
    } else {
      ReadOnlyStageSafe(w, p, job, stage', st, st');
    }
  }

  lemma ReadOnlyStageSafe(w: World, p: nat, job: Job, stage': Stage, st: Store, st': Store)
    requires StoreInv(w, st) && JobInv(w, st, p, job)
    requires job.stage != Transferring ==> AllDone(job)
    requires job.stage != ManifestWrite && job.stage != SumsUpload && !job.stage.IndexWrite?
    requires StageStep(w, p, job, stage', st, st')
    ensures st' == st && JobInv(w, st, p, job.(stage := stage'))
  {
    if job.stage.IndexRead? {
      assert st.log[job.stage.begun..] == st.log[job.stage.begun..|st.log|];
    } else {
      assert st.log[|st.log|..] == [];
    }
  }

  lemma SumsUploadSafe(w: World, p: nat, job: Job, stage': Stage, st: Store, st': Store)
    requires StoreInv(w, st) && JobInv(w, st, p, job)
    requires job.stage == SumsUpload
    requires StageStep(w, p, job, stage', st, st')
    ensures Grows(st, st') && StoreInv(w, st') && JobInv(w, st', p, job.(stage := stage'))
    ensures st'.log == st.log
  {
    assert st'.manifests == st.manifests && st'.index == st.index && st'.log == st.log;
    assert Grows(st, st');
    ManifestsStayComplete(w, st, st');
    JobInvStable(w, st, st', p, job);
  }

  lemma ManifestWriteSafe(w: World, p: nat, job: Job, stage': Stage, st: Store, st': Store)
    requires StoreInv(w, st) && JobInv(w, st, p, job)
    requires job.stage == ManifestWrite
    requires StageStep(w, p, job, stage', st, st')
    ensures Grows(st, st') && StoreInv(w, st') && JobInv(w, st', p, job.(stage := stage'))
    ensures st'.log == st.log
  {
    VerifiedIsComplete(w, st, job);
    hide Complete, Backed, SumsBacked, TransfersInv, Merge, Foreign, InIndex;
    assert st.log[|st.log|..] == [];
    assert Grows(st, st') by { ManifestGrows(st, st'); }
    hide Grows;
    TransfersGrow(w, st, st', job);
    forall t | t in st'.manifests ensures Complete(w, st', st'.manifests[t]) {
      CompleteGrows(w, st, st', st'.manifests[t]);
    }
  }

  lemma ManifestGrows(st: Store, st': Store)
    requires st' == st.(manifests := st'.manifests)
    requires forall t | t in st.manifests :: t in st'.manifests && st'.manifests[t] == st.manifests[t]
    ensures Grows(st, st')
  {
  }

  /** Once every transfer and the checksum list are verified, the release is
      completely stored. */
  lemma VerifiedIsComplete(w: World, st: Store, job: Job)
    requires TransfersInv(w, st, job) && AllDone(job) && SumsBacked(w, st, job.order.tag, Files(job))
    ensures Complete(w, st, Manifest(job))
  {
    var r := Manifest(job);
    forall k | 0 <= k < |r.files| ensures Backed(w, st, r.tag, r.files[k]) {
      assert TransferInv(w, st, job.order.tag, job.order.assets[k], job.transfers[k]);
    }
  }

  lemma IndexWriteSafe(w: World, p: nat, job: Job, stage': Stage, st: Store, st': Store)
    requires StoreInv(w, st) && JobInv(w, st, p, job)
    requires job.stage.IndexWrite?
    requires StageStep(w, p, job, stage', st, st')
    ensures Grows(st, st') && StoreInv(w, st') && JobInv(w, st', p, job.(stage := stage'))
    ensures forall k | |st.log| <= k < |st'.log| :: st'.log[k].writer == p
  {
    if st' == st {
      IndexRefused(w, p, job, stage', st);
      GrowsReflexive(st);
    } else {
      IndexReplaced(w, p, job, stage', st, st');
    }
  }

  /** A write that took effect merged the manifest into the current index. */
  lemma IndexReplaced(w: World, p: nat, job: Job, stage': Stage, st: Store, st': Store)
    requires StoreInv(w, st) && JobInv(w, st, p, job)
    requires job.stage.IndexWrite?
    requires StageStep(w, p, job, stage', st, st') && st' != st
    ensures Grows(st, st') && StoreInv(w, st') && JobInv(w, st', p, job.(stage := stage'))
    ensures forall k | |st.log| <= k < |st'.log| :: st'.log[k].writer == p
  {
    hide Merge, Foreign, Complete, Backed, Grows, StoreInv;
    var merged := Merge(job.stage.seen, Manifest(job), job.order.latestTag);
    IndexAccepted(w, p, job, merged.value, st, st');
    TransfersGrow(w, st, st', job);
  }

  lemma TransfersGrow(w: World, st: Store, st': Store, job: Job)
    requires Grows(st, st') && TransfersInv(w, st, job)
    ensures TransfersInv(w, st', job)
  {
  }

  /** A genuine refusal means the index is no longer the one that was read,
      which takes a write by somebody else. */
  lemma IndexRefused(w: World, p: nat, job: Job, stage': Stage, st: Store)
    requires StoreInv(w, st) && JobInv(w, st, p, job)
    requires job.stage.IndexWrite?
    requires StageStep(w, p, job, stage', st, st)
    ensures JobInv(w, st, p, job.(stage := stage'))
  {
    var IndexWrite(_, begun, _, readAt) := job.stage;
    ForeignGrows(st.log, st.log, begun, readAt, p);
  }

  lemma IndexAccepted(w: World, p: nat, job: Job, updated: Index, st: Store, st': Store)
    requires StoreInv(w, st) && AllDone(job) && ListedAsPublished(st, Manifest(job))
    requires Merge(st.index, Manifest(job), job.order.latestTag) == Ok(updated)
    requires st' == st.(index := Some(updated), log := st.log + [Write(p, updated)])
    ensures Grows(st, st') && StoreInv(w, st') && InIndex(st', Manifest(job))
  {
    MergeLists(w, st, Manifest(job), job.order.latestTag);
    hide Merge;
    assert Grows(st, st');
    ManifestsStayComplete(w, st, st');
  }

  lemma ManifestsStayComplete(w: World, st: Store, st': Store)
    requires StoreInv(w, st) && Grows(st, st') && st'.manifests == st.manifests
    ensures forall t | t in st'.manifests :: st'.manifests[t].tag == t && Complete(w, st', st'.manifests[t])
  {
    forall t | t in st'.manifests ensures Complete(w, st', st'.manifests[t]) {
      CompleteGrows(w, st, st', st'.manifests[t]);
    }
  }

  /** Every step keeps the invariant, and only adds to the bucket. */
  lemma StepSafe(w: World, s: State, s': State)
    requires Inv(w, s) && Next(w, s, s')
    ensures Inv(w, s') && Grows(s.store, s'.store)
  {
    if s' != s {
      var p: nat :| NextBy(w, s, s', p);
      var job, job', st, st' := s.jobs[p], s'.jobs[p], s.store, s'.store;
      JobStepSafe(w, p, job, job', st, st');
      forall q | 0 <= q < |s'.jobs| ensures JobInv(w, st', q, s'.jobs[q]) {
        if q != p { JobInvStable(w, st, st', q, s.jobs[q]); }
      }
    }
  }

  lemma JobStepSafe(w: World, p: nat, job: Job, job': Job, st: Store, st': Store)
    requires StoreInv(w, st) && JobInv(w, st, p, job) && JobStep(w, p, job, job', st, st')
    ensures Grows(st, st') && StoreInv(w, st') && JobInv(w, st', p, job')
    ensures forall k | |st.log| <= k < |st'.log| :: st'.log[k].writer == p
  {
    if i: nat :| TransferAt(w, job, job', st, st', i) {
      TransferStepSafe(w, job.order.tag, job.order.assets[i], job.transfers[i], job'.transfers[i], st, st');
      JobInvStable(w, st, st', p, job);
    } else if (job.stage != Transferring ==> AllDone(job)) && StageStep(w, p, job, job'.stage, st, st')
      && job' == job.(stage := job'.stage) {
      StageStepSafe(w, p, job, job'.stage, st, st');
    }
  }

  // ------------------------------------------------------------ main results

  lemma {:induction false} RunSafe(w: World, trace: seq<State>, i: nat)
    requires Run(w, trace) && i < |trace|
    ensures Inv(w, trace[i])
  {
    if i > 0 {
      RunSafe(w, trace, i - 1);
      StepSafe(w, trace[i - 1], trace[i]);
    }
  }

  lemma {:induction false} RunGrows(w: World, trace: seq<State>, i: nat, j: nat)
    requires Run(w, trace) && i <= j < |trace|
    ensures Grows(trace[i].store, trace[j].store)
  {
    hide Next, Inv, Init, StoreInv, Grows;
    if i < j {
      RunGrows(w, trace, i, j - 1);
      RunSafe(w, trace, j - 1);
      StepSafe(w, trace[j - 1], trace[j]);
      GrowsTransitive(trace[i].store, trace[j - 1].store, trace[j].store);
    } else {
      GrowsReflexive(trace[i].store);
    }
  }

  lemma GrowsReflexive(a: Store)
    ensures Grows(a, a)
  {
  }

  lemma GrowsTransitive(a: Store, b: Store, c: Store)
    requires Grows(a, b) && Grows(b, c)
    ensures Grows(a, c)
  {
  }

  /** Under every interleaving, at every moment, each indexed release is the
      manifest stored under its tag and every one of its files is stored with
      the recorded size and digest. */
  lemma NoPartialRelease(w: World, trace: seq<State>, i: nat, r: Release)
    requires Run(w, trace) && i < |trace| && InIndex(trace[i].store, r)
    ensures ListedAsPublished(trace[i].store, r) && Complete(w, trace[i].store, r)
    ensures forall k | 0 <= k < |r.files| ::
              var f, objects := r.files[k], trace[i].store.objects;
              && (r.tag, f.name) in objects && |objects[(r.tag, f.name)].content| == f.size
              && w.hash(objects[(r.tag, f.name)].content) == f.sha256
  {
    RunSafe(w, trace, i);
    var rs := trace[i].store.index.value.releases;
    var k :| 0 <= k < |rs| && rs[k] == r;
    assert forall k | 0 <= k < |r.files| :: Backed(w, trace[i].store, r.tag, r.files[k]);
  }

  /** Once a publisher has finished, its release is indexed at every later
      moment, unchanged, whatever the others do. */
  lemma NoLostUpdate(w: World, trace: seq<State>, i: nat, j: nat, p: nat)
    requires Run(w, trace) && i <= j < |trace|
    requires p < |trace[i].jobs| && trace[i].jobs[p].stage == Published
    ensures AllDone(trace[i].jobs[p]) && InIndex(trace[j].store, Manifest(trace[i].jobs[p]))
  {
    RunSafe(w, trace, i);
    RunGrows(w, trace, i, j);
  }

  /** The record is what the order asks for: its tag, date and kind, and for
      each asset a file of its name and size, with the announced digest. */
  ghost predicate Fulfils(r: Release, order: Order) {
    && r.tag == order.tag && r.publishedAt == order.publishedAt && r.prerelease == order.prerelease
    && |r.files| == |order.assets|
    && forall k | 0 <= k < |r.files| ::
         && r.files[k].name == order.assets[k].name && r.files[k].size == order.assets[k].size
         && (order.assets[k].digest.Some? ==> r.files[k].sha256 == order.assets[k].digest.value)
  }

  lemma FilesFulfil(w: World, st: Store, job: Job)
    requires TransfersInv(w, st, job) && AllDone(job)
    ensures Fulfils(Manifest(job), job.order)
  {
    hide Backed;
    forall k | 0 <= k < |job.transfers|
      ensures TransferInv(w, st, job.order.tag, job.order.assets[k], job.transfers[k])
    {
    }
  }

  lemma {:induction false} OrderKept(w: World, trace: seq<State>, i: nat, p: nat)
    requires Run(w, trace) && i < |trace| && p < |trace[i].jobs|
    ensures p < |trace[0].jobs| && trace[0].jobs[p].order == trace[i].jobs[p].order
  {
    if i > 0 {
      RunNext(w, trace, i - 1);
      hide Run;
      StepKeepsOrder(w, trace[i - 1], trace[i], p);
      OrderKept(w, trace, i - 1, p);
    }
  }

  lemma StepKeepsOrder(w: World, s: State, s': State, p: nat)
    requires Next(w, s, s') && p < |s'.jobs|
    ensures p < |s.jobs| && s.jobs[p].order == s'.jobs[p].order
  {
    hide TransferStep, StageStep;
  }

  /** Once a publisher has finished, the index lists at every later moment a
      release that is what it was asked to publish from the start. */
  lemma OrderPublished(w: World, trace: seq<State>, i: nat, j: nat, p: nat)
    requires Run(w, trace) && i <= j < |trace|
    requires p < |trace[i].jobs| && trace[i].jobs[p].stage == Published
    ensures p < |trace[0].jobs|
    ensures exists r :: InIndex(trace[j].store, r) && Fulfils(r, trace[0].jobs[p].order)
  {
    hide Run, Fulfils, InIndex, TransfersInv;
    NoLostUpdate(w, trace, i, j, p);
    OrderKept(w, trace, i, p);
    RunSafe(w, trace, i);
    assert JobInv(w, trace[i].store, p, trace[i].jobs[p]);
    FilesFulfil(w, trace[i].store, trace[i].jobs[p]);
  }

  /** The index a publisher's accepted write leaves names the tag the publisher
      prefers as latest exactly when a newest stable release has it. */
  lemma PreferredWins(w: World, trace: seq<State>, i: nat, p: nat)
    requires Run(w, trace) && i + 1 < |trace| && p < |trace[i].jobs| == |trace[i + 1].jobs|
    requires trace[i].jobs[p].stage.IndexWrite? && trace[i + 1].jobs[p].stage == Published
    ensures trace[i + 1].store.index.Some?
    ensures var m, tag := trace[i + 1].store.index.value, trace[i].jobs[p].order.latestTag;
            m.latest == Some(tag) <==> exists r :: NewestStable(m.releases, r) && r.tag == tag
  {
    RunNext(w, trace, i);
    var s, s' := trace[i], trace[i + 1];
    hide Run, Merge, NewestStable, TransferStep, HeadMatches, ReadbackMatches;
    var q: nat :| NextBy(w, s, s', q);
    assert q == p;
    var job := s.jobs[p];
    var merged := Merge(job.stage.seen, Manifest(job), job.order.latestTag);
    SchemaChecked(job.stage.seen, Manifest(job), job.order.latestTag);
    LatestIsNewestStable(job.stage.seen, Manifest(job), job.order.latestTag);
  }

  /** A release once indexed stays indexed with the very same record. */
  lemma IndexedForever(w: World, trace: seq<State>, i: nat, j: nat, r: Release, x: Release)
    requires Run(w, trace) && i <= j < |trace|
    requires InIndex(trace[i].store, r)
    ensures InIndex(trace[j].store, r)
    ensures InIndex(trace[j].store, x) && x.tag == r.tag ==> x == r
  {
    RunGrows(w, trace, i, j);
    NoPartialRelease(w, trace, j, r);
    if InIndex(trace[j].store, x) { NoPartialRelease(w, trace, j, x); }
  }

  /** A step by which p goes from writing the index to its next attempt, or to
      giving up: its write was refused. */
  ghost predicate Refused(s: State, s': State, p: nat) {
    && p < |s.jobs| == |s'.jobs| && s.jobs[p].stage.IndexWrite?
    && (s'.jobs[p].stage.IndexRead? || s'.jobs[p].stage.GaveUp?)
  }

  lemma RefusalOf(w: World, p: nat, job: Job, job': Job, st: Store, st': Store)
    requires StoreInv(w, st) && JobInv(w, st, p, job) && JobStep(w, p, job, job', st, st')
    requires job.stage.IndexWrite? && (job'.stage.IndexRead? || job'.stage.GaveUp?)
    ensures AllDone(job)
    ensures (exists k :: job.stage.readAt <= k < |st.log| && st.log[k].writer != p) || OwnWrite(w, st', job)
  {
    hide Merge, TransfersInv, Foreign, TransferStep, StoreInv;
    var IndexWrite(_, _, seen, readAt) := job.stage;
    var merged := Merge(seen, Manifest(job), job.order.latestTag);
    assert StageStep(w, p, job, job'.stage, st, st');
    var reply :| SwapIndex(w, st, st', seen, p, merged.value, reply) && reply.Conflict?;
    if reply.resent {
      IndexAccepted(w, p, job, merged.value, st, st');
    } else {
      assert st.log[readAt].writer != p;
    }
  }

  /** In every run a refused index write is owed to another publisher, who has
      written the index since it was read, or else to a resent write of the
      publisher's own, which has put its release in. */
  lemma ConflictHasWitness(w: World, trace: seq<State>, i: nat, p: nat)
    requires Run(w, trace) && i + 1 < |trace| && Refused(trace[i], trace[i + 1], p)
    ensures AllDone(trace[i].jobs[p])
    ensures (exists k :: trace[i].jobs[p].stage.readAt <= k < |trace[i].store.log| && trace[i].store.log[k].writer != p)
            || (w.resends && InIndex(trace[i + 1].store, Manifest(trace[i].jobs[p])))
  {
    RunSafe(w, trace, i);
    var s, s' := trace[i], trace[i + 1];
    hide JobStep, JobInv, StoreInv, Run;
    assert Next(w, s, s') by { RunNext(w, trace, i); }
    var q: nat :| NextBy(w, s, s', q);
    assert q == p;
    RefusalOf(w, p, s.jobs[p], s'.jobs[p], s.store, s'.store);
  }

  lemma RunNext(w: World, trace: seq<State>, i: nat)
    requires Run(w, trace) && i + 1 < |trace|
    ensures Next(w, trace[i], trace[i + 1])
  {
  }

  /** A publisher gives up only when at least five index writes by others were
      accepted in the meantime, or when a resent write of its own has already
      put its release in the index; the latter needs a library that resends. */
  lemma GivingUpNeedsFiveOthers(w: World, trace: seq<State>, i: nat, p: nat)
    requires Run(w, trace) && i < |trace| && p < |trace[i].jobs|
    requires trace[i].jobs[p].stage.GaveUp?
    ensures AllDone(trace[i].jobs[p]) && trace[i].jobs[p].stage.begun <= |trace[i].store.log|
    ensures Foreign(trace[i].store.log[trace[i].jobs[p].stage.begun..], p) >= 5
            || (w.resends && InIndex(trace[i].store, Manifest(trace[i].jobs[p])))
  {
    RunSafe(w, trace, i);
    assert JobInv(w, trace[i].store, p, trace[i].jobs[p]);
  }

  /** With a library that resends, a publisher alone in the world can have its
      write refused. */
  lemma LonelyRefusal(w: World, job: Job, st: Store)
    requires w.resends && AllDone(job) && st.index.None?
    requires job.stage == IndexWrite(0, |st.log|, None, |st.log|)
    ensures var updated := Merge(None, Manifest(job), job.order.latestTag).value;
            var st' := st.(index := Some(updated), log := st.log + [Write(0, updated)]);
            JobStep(w, 0, job, job.(stage := IndexRead(1, |st.log|)), st, st')
  {
    var merged := Merge(None, Manifest(job), job.order.latestTag);
    var updated := merged.value;
    var st' := st.(index := Some(updated), log := st.log + [Write(0, updated)]);
    hide Merge;
    assert SwapIndex(w, st, st', None, 0, merged.value, Conflict(true));
    assert StageStep(w, 0, job, IndexRead(1, |st.log|), st, st');
  }

  // ------------------------------------------------- the latest release

  /** An index that names its latest release rightly, or none yet. */
  ghost predicate IndexRight(st: Store) {
    st.index.Some? ==> LatestRight(st.index.value)
  }

  lemma StepNamesLatest(w: World, s: State, s': State)
    requires Next(w, s, s') && IndexRight(s.store)
    ensures IndexRight(s'.store)
  {
    hide LatestRight, Merge, HeadMatches, ReadbackMatches;
    if s' != s {
      var p: nat :| NextBy(w, s, s', p);
      var job, job' := s.jobs[p], s'.jobs[p];
      if job.stage.IndexWrite? && s'.store.index != s.store.index {
        var release := Manifest(job);
        var merged := Merge(job.stage.seen, release, job.order.latestTag);
        SchemaChecked(job.stage.seen, release, job.order.latestTag);
        MergeLatestRight(job.stage.seen, release, job.order.latestTag);
      }
    }
  }

  lemma SchemaChecked(index: Option<Index>, release: Release, latestTag: string)
    requires Merge(index, release, latestTag).Ok?
    ensures index.Some? ==> index.value.schema == SCHEMA
  {
  }

  lemma {:induction false} RunNamesLatest(w: World, trace: seq<State>, i: nat)
    requires Run(w, trace) && i < |trace| && IndexRight(trace[0].store)
    ensures IndexRight(trace[i].store)
  {
    hide Next, Init, LatestRight;
    if i > 0 {
      RunNamesLatest(w, trace, i - 1);
      StepNamesLatest(w, trace[i - 1], trace[i]);
    }
  }

  /** Under every interleaving the release named as latest only moves forward
      in time: at every later moment it is at least as recent as every stable
      release listed before, the one named latest then among them. */
  lemma LatestOnlyMovesForward(w: World, trace: seq<State>, i: nat, j: nat, was: Release)
    requires Run(w, trace) && i <= j < |trace| && IndexRight(trace[0].store)
    requires InIndex(trace[i].store, was) && !was.prerelease
    ensures trace[j].store.index.Some? && NoEarlier(trace[j].store.index.value, was)
  {
    hide Run, NoEarlier, LatestRight;
    RunGrows(w, trace, i, j);
    RunNamesLatest(w, trace, j);
    assert InIndex(trace[j].store, was);
    StableBound(trace[j].store.index.value, was);
  }
}
