/**
  The content-addressed artifact store.

  `Writer` is one call of `store_chunks`, cut where another process may act; `Step` lets any writer
  take its next action or stop for good (an exception, or a crash that leaves its temporary file).
  Publishing is an atomic rename. Digest functions and the key derived from a URL are parameters.
*/
module ArtifactCache {
  import opened Wrappers
  import Text

  type Bytes = seq<bv8>

  datatype Env = Env(sha256: Bytes -> string, others: map<string, Bytes -> string>, urlKey: string -> string)

  datatype Receipt = Receipt(url: string, digest: string, size: nat, filename: string)

  /** Bodies by digest, receipts by URL key. */
  datatype Disk = Disk(bodies: map<string, Bytes>, receipts: map<string, Receipt>)

  datatype Phase = Writing(next: nat) | Ready | Checked(present: bool) | Placed | Described | Finished | Stopped

  datatype Writer = Writer(
    url: string,
    filename: string,
    chunks: seq<Bytes>,
    expected: map<string, string>,
    phase: Phase,
    temporary: Bytes,
    hashed: Bytes,
    size: nat)

  datatype State = State(disk: Disk, writers: seq<Writer>)

  function Start(url: string, filename: string, chunks: seq<Bytes>, expected: map<string, string>): Writer {
    Writer(url, filename, chunks, expected, Writing(0), [], [], 0)
  }

  function Content(chunks: seq<Bytes>): Bytes {
    if chunks == [] then [] else Content(chunks[..|chunks| - 1]) + chunks[|chunks| - 1]
  }

  /** `_validate_hashes`: unsupported algorithms are not compared. */
  predicate Validates(env: Env, content: Bytes, expected: map<string, string>) {
    forall algorithm :: algorithm in expected ==>
      if algorithm == "sha256" then Text.Lower(env.sha256(content)) == Text.Lower(expected[algorithm])
      else algorithm in env.others ==> Text.Lower(env.others[algorithm](content)) == Text.Lower(expected[algorithm])
  }

  /** `_body`: a present body of the requested size, if one is requested. */
  function Body(disk: Disk, digest: string, size: Option<nat>): Option<Bytes> {
    if |digest| == 64 && digest in disk.bodies && (size.Some? ==> |disk.bodies[digest]| == size.value)
    then Some(disk.bodies[digest]) else None
  }

  /** The next action of a writer, and the disk after it. */
  function Advance(env: Env, w: Writer, disk: Disk): (Writer, Disk) {
    var digest := env.sha256(w.hashed);
    match w.phase
    case Writing(next) =>
      if next < |w.chunks| then
        var chunk := w.chunks[next];
        if chunk == [] then (w.(phase := Writing(next + 1)), disk)
        else
          (w.(phase := Writing(next + 1), temporary := w.temporary + chunk, hashed := w.hashed + chunk, size := w.size + |chunk|), disk)
      else if Validates(env, w.hashed, w.expected) then (w.(phase := Ready), disk)
      else (w.(phase := Stopped), disk)
    case Ready => (w.(phase := Checked(digest in disk.bodies)), disk)
    case Checked(present) =>
      (w.(phase := Placed), if present then disk else disk.(bodies := disk.bodies[digest := w.temporary]))
    case Placed =>
      (w.(phase := if Body(disk, digest, Some(w.size)).Some? then Described else Stopped), disk)
    case Described =>
      (w.(phase := Finished), disk.(receipts := disk.receipts[env.urlKey(w.url) := Receipt(w.url, digest, w.size, w.filename)]))
    case Finished => (w, disk)
    case Stopped => (w, disk)
  }

  datatype Action =
    | Act(writer: nat)
    | Stop(writer: nat)
    | Begin(url: string, filename: string, chunks: seq<Bytes>, expected: map<string, string>)

  function Step(env: Env, st: State, action: Action): State {
    match action
    case Act(i) =>
      if i >= |st.writers| then st
      else
        var (w, disk) := Advance(env, st.writers[i], st.disk);
        State(disk, st.writers[i := w])
    case Stop(i) =>
      if i >= |st.writers| || st.writers[i].phase.Finished? then st
      else st.(writers := st.writers[i := st.writers[i].(phase := Stopped)])
    case Begin(url, filename, chunks, expected) =>
      st.(writers := st.writers + [Start(url, filename, chunks, expected)])
  }

  function Run(env: Env, st: State, actions: seq<Action>): State
    decreases |actions|
  {
    if actions == [] then st else Run(env, Step(env, st, actions[0]), actions[1..])
  }

  const EMPTY := State(Disk(map[], map[]), [])

  // ---------- What every run keeps ----------

  /** The writer received all its chunks and they passed its hash checks. */
  predicate Complete(env: Env, w: Writer) {
    && w.hashed == Content(w.chunks)
    && Validates(env, w.hashed, w.expected)
  }

  /** Temporary file, digest and size agree, and the content is validated before it is published. */
  predicate WriterKept(env: Env, w: Writer, disk: Disk) {
    && w.temporary == w.hashed && w.size == |w.hashed|
    && match w.phase
       case Writing(next) => next <= |w.chunks| && w.hashed == Content(w.chunks[..next])
       case Ready => Complete(env, w)
       case Checked(present) => Complete(env, w) && (present ==> env.sha256(w.hashed) in disk.bodies)
       case Placed => Complete(env, w) && env.sha256(w.hashed) in disk.bodies
       case Described => Complete(env, w) && env.sha256(w.hashed) in disk.bodies && |env.sha256(w.hashed)| == 64
       case Finished =>
         && Complete(env, w) && env.urlKey(w.url) in disk.receipts
         && env.sha256(w.hashed) in disk.bodies && |env.sha256(w.hashed)| == 64
       case Stopped => true
  }

  /** Some writer supplied exactly these bytes, all of them, validated. */
  ghost predicate Supplied(env: Env, writers: seq<Writer>, body: Bytes) {
    exists i :: 0 <= i < |writers| && Complete(env, writers[i]) && Content(writers[i].chunks) == body
  }

  /** Some call for this URL finished, having stored content of this digest and size. */
  ghost predicate Stored(env: Env, writers: seq<Writer>, r: Receipt) {
    exists i :: 0 <= i < |writers| && StoredBy(env, writers[i], r)
  }

  predicate StoredBy(env: Env, w: Writer, r: Receipt) {
    w.phase.Finished? && Complete(env, w) && w.url == r.url && w.filename == r.filename
    && env.sha256(Content(w.chunks)) == r.digest && |Content(w.chunks)| == r.size
  }

  ghost predicate Kept(env: Env, st: State) {
    && (forall i :: 0 <= i < |st.writers| ==> WriterKept(env, st.writers[i], st.disk))
    && (forall d :: d in st.disk.bodies ==> env.sha256(st.disk.bodies[d]) == d && Supplied(env, st.writers, st.disk.bodies[d]))
    && (forall k :: k in st.disk.receipts ==>
         var r := st.disk.receipts[k];
         k == env.urlKey(r.url) && r.digest in st.disk.bodies && |r.digest| == 64 && Stored(env, st.writers, r))
  }

  /** Writers keep their facts when the disk only gains bodies. */
  lemma WriterStays(env: Env, w: Writer, disk: Disk, disk': Disk)
    requires WriterKept(env, w, disk)
    requires disk.bodies.Keys <= disk'.bodies.Keys && disk.receipts.Keys <= disk'.receipts.Keys
    ensures WriterKept(env, w, disk')
  {
    hide Validates, Content;
  }

  lemma AdvanceKept(env: Env, w: Writer, disk: Disk)
    requires WriterKept(env, w, disk)
    ensures var (w', disk') := Advance(env, w, disk);
      && WriterKept(env, w', disk')
      && disk.bodies.Keys <= disk'.bodies.Keys && disk.receipts.Keys <= disk'.receipts.Keys
      && (Complete(env, w) && !w.phase.Writing? ==> Complete(env, w'))
      && w'.chunks == w.chunks && w'.url == w.url && w'.filename == w.filename && w'.expected == w.expected
      && (w.phase.Finished? ==> w' == w)
  {
    hide Validates;
    if w.phase.Writing? && w.phase.next < |w.chunks| {
      var next := w.phase.next;
      assert w.chunks[..next + 1][..next] == w.chunks[..next];
    } else if w.phase.Writing? {
      assert w.chunks[..w.phase.next] == w.chunks;
    }
  }

  /** A supplier or finished call stays one when some writer takes a step. */
  lemma SuppliedStays(env: Env, writers: seq<Writer>, i: nat, w: Writer, body: Bytes)
    requires i < |writers| && Supplied(env, writers, body)
    requires Complete(env, writers[i]) ==> Complete(env, w) && w.chunks == writers[i].chunks
    ensures Supplied(env, writers[i := w], body)
  {
    hide Complete;
    var j :| 0 <= j < |writers| && Complete(env, writers[j]) && Content(writers[j].chunks) == body;
    var after := writers[i := w];
    assert after[j] == if j == i then w else writers[j];
  }

  lemma StoredStays(env: Env, writers: seq<Writer>, i: nat, w: Writer, r: Receipt)
    requires i < |writers| && Stored(env, writers, r)
    requires writers[i].phase.Finished? ==> w == writers[i]
    ensures Stored(env, writers[i := w], r)
  {
    hide Complete;
    var j :| 0 <= j < |writers| && StoredBy(env, writers[j], r);
    var after := writers[i := w];
    assert after[j] == if j == i then w else writers[j];
  }

  /** While chunks are still coming in, completeness can only be a matter of empty chunks at the end. */
  lemma CompleteStays(env: Env, w: Writer, disk: Disk)
    requires WriterKept(env, w, disk) && Complete(env, w)
    ensures Complete(env, Advance(env, w, disk).0)
  {
    hide Validates;
    if w.phase.Writing? && w.phase.next < |w.chunks| {
      ContentGrows(w.chunks, w.phase.next);
    }
  }

  lemma {:induction false} ContentGrows(chunks: seq<Bytes>, n: nat)
    requires n < |chunks|
    ensures |Content(chunks[..n])| + |chunks[n]| <= |Content(chunks)|
  {
    if n == |chunks| - 1 {
    } else {
      var front := chunks[..|chunks| - 1];
      assert front[..n] == chunks[..n];
      ContentGrows(front, n);
    }
  }

  lemma ActKept(env: Env, st: State, i: nat)
    requires Kept(env, st) && i < |st.writers|
    ensures Kept(env, Step(env, st, Act(i)))
  {
    hide Advance, WriterKept, Complete, Supplied, Stored;
    var w := st.writers[i];
    var (w', disk') := Advance(env, w, st.disk);
    var after := st.writers[i := w'];
    AdvanceKept(env, w, st.disk);
    forall j | 0 <= j < |after| ensures WriterKept(env, after[j], disk') {
      if j != i { WriterStays(env, after[j], st.disk, disk'); }
    }
    AdvanceFacts(env, w, st.disk);
    if Complete(env, w) { CompleteStays(env, w, st.disk); }
    forall d | d in disk'.bodies
      ensures env.sha256(disk'.bodies[d]) == d && Supplied(env, after, disk'.bodies[d])
    {
      if d in st.disk.bodies && disk'.bodies[d] == st.disk.bodies[d] {
        SuppliedStays(env, st.writers, i, w', st.disk.bodies[d]);
      } else {
        SuppliedBySelf(env, after, i, disk'.bodies[d]);
      }
    }
    forall k | k in disk'.receipts
      ensures var r := disk'.receipts[k];
        k == env.urlKey(r.url) && r.digest in disk'.bodies && |r.digest| == 64 && Stored(env, after, r)
    {
      if k in st.disk.receipts && disk'.receipts[k] == st.disk.receipts[k] {
        StoredStays(env, st.writers, i, w', st.disk.receipts[k]);
      } else {
        StoredBySelf(env, after, i, disk'.receipts[k]);
      }
    }
  }

  /** What one action can change on disk: one body, or one receipt, both from the writer's own content. */
  lemma AdvanceFacts(env: Env, w: Writer, disk: Disk)
    requires WriterKept(env, w, disk)
    ensures var (w', disk') := Advance(env, w, disk);
      && (forall d :: d in disk'.bodies && !(d in disk.bodies && disk'.bodies[d] == disk.bodies[d]) ==>
           Complete(env, w') && disk'.bodies[d] == Content(w'.chunks) && d == env.sha256(disk'.bodies[d]))
      && (forall k :: k in disk'.receipts && !(k in disk.receipts && disk'.receipts[k] == disk.receipts[k]) ==>
           && k == env.urlKey(disk'.receipts[k].url) && disk'.receipts[k].digest in disk'.bodies
           && |disk'.receipts[k].digest| == 64 && StoredBy(env, w', disk'.receipts[k]))
  {
    hide Validates, Content;
  }

  lemma SuppliedBySelf(env: Env, writers: seq<Writer>, i: nat, body: Bytes)
    requires i < |writers| && Complete(env, writers[i]) && Content(writers[i].chunks) == body
    ensures Supplied(env, writers, body)
  {
  }

  lemma StoredBySelf(env: Env, writers: seq<Writer>, i: nat, r: Receipt)
    requires i < |writers| && StoredBy(env, writers[i], r)
    ensures Stored(env, writers, r)
  {
  }

  lemma StepKept(env: Env, st: State, action: Action)
    requires Kept(env, st)
    ensures Kept(env, Step(env, st, action))
  {
    hide Complete, Advance, Validates;
    match action
    case Act(i) =>
      if i < |st.writers| { ActKept(env, st, i); }
    case Stop(i) =>
      if i < |st.writers| && !st.writers[i].phase.Finished? {
        var w := st.writers[i].(phase := Stopped);
        CompleteIgnoresPhase(env, st.writers[i], Stopped);
        forall d | d in st.disk.bodies ensures Supplied(env, st.writers[i := w], st.disk.bodies[d]) {
          SuppliedStays(env, st.writers, i, w, st.disk.bodies[d]);
        }
        forall k | k in st.disk.receipts ensures Stored(env, st.writers[i := w], st.disk.receipts[k]) {
          StoredStays(env, st.writers, i, w, st.disk.receipts[k]);
        }
      }
    case Begin(url, filename, chunks, expected) =>
      BeginKept(env, st, Start(url, filename, chunks, expected));
  }

  lemma CompleteIgnoresPhase(env: Env, w: Writer, phase: Phase)
    ensures Complete(env, w.(phase := phase)) == Complete(env, w)
  {
  }

  lemma BeginKept(env: Env, st: State, w: Writer)
    requires Kept(env, st) && w == Start(w.url, w.filename, w.chunks, w.expected)
    ensures Kept(env, st.(writers := st.writers + [w]))
  {
    hide Complete, Validates, StoredBy, Supplied, Stored;
    var after := st.writers + [w];
    assert w.chunks[..0] == [];
    forall d | d in st.disk.bodies ensures Supplied(env, after, st.disk.bodies[d]) {
      SuppliedGrows(env, st.writers, w, st.disk.bodies[d]);
    }
    forall k | k in st.disk.receipts ensures Stored(env, after, st.disk.receipts[k]) {
      StoredGrows(env, st.writers, w, st.disk.receipts[k]);
    }
  }

  lemma SuppliedGrows(env: Env, writers: seq<Writer>, w: Writer, body: Bytes)
    requires Supplied(env, writers, body)
    ensures Supplied(env, writers + [w], body)
  {
    hide Complete, Content;
    var j :| 0 <= j < |writers| && Complete(env, writers[j]) && Content(writers[j].chunks) == body;
    assert (writers + [w])[j] == writers[j];
  }

  lemma StoredGrows(env: Env, writers: seq<Writer>, w: Writer, r: Receipt)
    requires Stored(env, writers, r)
    ensures Stored(env, writers + [w], r)
  {
    hide StoredBy;
    var j :| 0 <= j < |writers| && StoredBy(env, writers[j], r);
    assert (writers + [w])[j] == writers[j];
  }

  /**
    Under any interleaving of writers and crashes: bodies match their digests and come from validated
    content, and receipts name present bodies.
  */
  lemma {:induction false} RunKept(env: Env, st: State, actions: seq<Action>)
    requires Kept(env, st)
    ensures Kept(env, Run(env, st, actions))
    decreases |actions|
  {
    hide Kept, Step;
    if actions != [] {
      StepKept(env, st, actions[0]);
      RunKept(env, Step(env, st, actions[0]), actions[1..]);
    }
  }

  // ---------- Reading ----------

  datatype Artifact = Artifact(digest: string, body: Bytes)

  /** `get`. */
  function Get(env: Env, disk: Disk, url: string, expected: map<string, string>): Option<Artifact> {
    var wanted := if "sha256" in expected then Some(Text.Lower(expected["sha256"])) else None;
    if wanted.Some? && Body(disk, wanted.value, None).Some? then
      Some(Artifact(wanted.value, Body(disk, wanted.value, None).value))
    else if env.urlKey(url) !in disk.receipts then None
    else
      var r := disk.receipts[env.urlKey(url)];
      if r.url != url || (wanted.Some? && r.digest != wanted.value) then None
      else if Body(disk, r.digest, Some(r.size)).None? then None
      else Some(Artifact(r.digest, Body(disk, r.digest, Some(r.size)).value))
  }

  /**
    Whatever is read was supplied whole and validated by some call and hashes to the digest it is
    read under; if a SHA-256 was expected that is the digest, and otherwise a call for this very URL
    finished with content of that digest and size.
  */
  lemma GetIsSound(env: Env, st: State, url: string, expected: map<string, string>)
    requires Kept(env, st) && Get(env, st.disk, url, expected).Some?
    ensures var a := Get(env, st.disk, url, expected).value;
      && env.sha256(a.body) == a.digest
      && Supplied(env, st.writers, a.body)
      && if "sha256" in expected then a.digest == Text.Lower(expected["sha256"])
         else exists i :: 0 <= i < |st.writers| && FinishedWith(env, st.writers[i], url, a.digest, |a.body|)
  {
    hide Complete, Validates, WriterKept;
    var a := Get(env, st.disk, url, expected).value;
    if "sha256" !in expected {
      var r := st.disk.receipts[env.urlKey(url)];
      assert Stored(env, st.writers, r);
      var i :| 0 <= i < |st.writers| && StoredBy(env, st.writers[i], r);
      assert FinishedWith(env, st.writers[i], url, a.digest, |a.body|);
    }
  }

  /**
    With an expected SHA-256 the URL and the receipts do not matter: the body of that digest is
    returned if there is one, and otherwise nothing.
  */
  lemma GetByDigest(env: Env, disk: Disk, url: string, expected: map<string, string>)
    requires "sha256" in expected
    ensures var digest := Text.Lower(expected["sha256"]);
      Get(env, disk, url, expected) ==
        if |digest| == 64 && digest in disk.bodies then Some(Artifact(digest, disk.bodies[digest])) else None
  {
  }

  predicate FinishedWith(env: Env, w: Writer, url: string, digest: string, size: nat) {
    w.phase.Finished? && w.url == url && env.sha256(Content(w.chunks)) == digest && |Content(w.chunks)| == size
  }

  /** No two contents offered in the run share a digest. */
  ghost predicate NoCollision(env: Env, writers: seq<Writer>) {
    forall i, j | 0 <= i < |writers| && 0 <= j < |writers| ::
      env.sha256(Content(writers[i].chunks)) == env.sha256(Content(writers[j].chunks)) ==>
        Content(writers[i].chunks) == Content(writers[j].chunks)
  }

  /** Short of a collision, every receipt names a body of its recorded size, the one its call stored. */
  lemma ReceiptNamesBody(env: Env, st: State, key: string)
    requires Kept(env, st) && NoCollision(env, st.writers) && key in st.disk.receipts
    ensures var r := st.disk.receipts[key];
      && r.digest in st.disk.bodies && |st.disk.bodies[r.digest]| == r.size
      && exists i :: 0 <= i < |st.writers| && StoredBy(env, st.writers[i], r)
                     && Content(st.writers[i].chunks) == st.disk.bodies[r.digest]
  {
    hide Complete, Validates, WriterKept, Content;
    var r := st.disk.receipts[key];
    var body := st.disk.bodies[r.digest];
    var i :| 0 <= i < |st.writers| && StoredBy(env, st.writers[i], r);
    assert Supplied(env, st.writers, body);
    var j :| 0 <= j < |st.writers| && Complete(env, st.writers[j]) && Content(st.writers[j].chunks) == body;
    assert env.sha256(Content(st.writers[i].chunks)) == env.sha256(Content(st.writers[j].chunks));
  }

  /** The URLs of the run have keys of their own. */
  predicate OwnKey(env: Env, writers: seq<Writer>, url: string) {
    forall i :: 0 <= i < |writers| && env.urlKey(writers[i].url) == env.urlKey(url) ==> writers[i].url == url
  }

  /**
    Once a call for a URL has finished, `get` finds a body for it in every later state: one that a
    finished call for that URL stored.
  */
  lemma FinishedIsFound(env: Env, st: State, i: nat)
    requires Kept(env, st) && NoCollision(env, st.writers)
    requires i < |st.writers| && st.writers[i].phase.Finished? && OwnKey(env, st.writers, st.writers[i].url)
    ensures var url := st.writers[i].url; var found := Get(env, st.disk, url, map[]);
      && found.Some?
      && exists j :: 0 <= j < |st.writers| && st.writers[j].phase.Finished? && st.writers[j].url == url
                     && Content(st.writers[j].chunks) == found.value.body
  {
    hide Complete, Validates, Content, WriterKept, Supplied;
    var w := st.writers[i];
    var key := env.urlKey(w.url);
    FinishedHasReceipt(env, st, i);
    ReceiptNamesBody(env, st, key);
    var r := st.disk.receipts[key];
    var j :| 0 <= j < |st.writers| && StoredBy(env, st.writers[j], r) && Content(st.writers[j].chunks) == st.disk.bodies[r.digest];
    assert st.writers[j].url == r.url;
  }

  lemma FinishedHasReceipt(env: Env, st: State, i: nat)
    requires Kept(env, st) && i < |st.writers| && st.writers[i].phase.Finished?
    ensures env.urlKey(st.writers[i].url) in st.disk.receipts
  {
    assert WriterKept(env, st.writers[i], st.disk);
  }

  /** Nothing published ever goes away. */
  lemma {:induction false} NothingIsLost(env: Env, st: State, actions: seq<Action>)
    requires Kept(env, st)
    ensures var after := Run(env, st, actions);
      && st.disk.bodies.Keys <= after.disk.bodies.Keys && st.disk.receipts.Keys <= after.disk.receipts.Keys
      && |st.writers| <= |after.writers|
      && forall i :: 0 <= i < |st.writers| && st.writers[i].phase.Finished? ==> after.writers[i] == st.writers[i]
    decreases |actions|
  {
    hide Kept, Advance;
    if actions != [] {
      var next := Step(env, st, actions[0]);
      StepKept(env, st, actions[0]);
      if actions[0].Act? && actions[0].writer < |st.writers| {
        ActLosesNothing(env, st, actions[0].writer);
      }
      NothingIsLost(env, next, actions[1..]);
    }
  }

  lemma ActLosesNothing(env: Env, st: State, i: nat)
    requires Kept(env, st) && i < |st.writers|
    ensures var (w', disk') := Advance(env, st.writers[i], st.disk);
      && st.disk.bodies.Keys <= disk'.bodies.Keys && st.disk.receipts.Keys <= disk'.receipts.Keys
      && (st.writers[i].phase.Finished? ==> w' == st.writers[i])
  {
    AdvanceKept(env, st.writers[i], st.disk);
  }

  /** Of the expected hashes `get` looks at SHA-256 only; a body that fails another one is returned. */
  lemma OtherHashesIgnored(env: Env, disk: Disk, url: string, expected: map<string, string>, others: map<string, string>)
    requires "sha256" !in others
    ensures Get(env, disk, url, others + expected) == Get(env, disk, url, expected)
  {
    hide Body;
  }

  // ---------- Every reachable state ----------

  lemma {:induction false} ReachableKept(env: Env, actions: seq<Action>)
    ensures Kept(env, Run(env, EMPTY, actions))
  {
    hide Kept;
    assert Kept(env, EMPTY) by { EmptyKept(env); }
    RunKept(env, EMPTY, actions);
  }

  lemma EmptyKept(env: Env)
    ensures Kept(env, EMPTY)
  {
  }

  /**
    In every run of writers and crashes: whatever is read was supplied whole and validated by some
    call and hashes to the digest it is read under; an expected SHA-256 is that digest, and without
    one a call for this very URL finished with content of that digest and size.
  */
  lemma {:induction false} EveryReadIsSound(env: Env, actions: seq<Action>, url: string, expected: map<string, string>)
    requires Get(env, Run(env, EMPTY, actions).disk, url, expected).Some?
    ensures var st := Run(env, EMPTY, actions); var a := Get(env, st.disk, url, expected).value;
      && env.sha256(a.body) == a.digest
      && Supplied(env, st.writers, a.body)
      && if "sha256" in expected then a.digest == Text.Lower(expected["sha256"])
         else exists i :: 0 <= i < |st.writers| && FinishedWith(env, st.writers[i], url, a.digest, |a.body|)
  {
    hide Kept, Get, Run;
    ReachableKept(env, actions);
    GetIsSound(env, Run(env, EMPTY, actions), url, expected);
  }

  /** In every run without a collision, every receipt names a present body of its recorded size, the one its call stored. */
  lemma {:induction false} EveryReceiptNamesBody(env: Env, actions: seq<Action>, key: string)
    requires var st := Run(env, EMPTY, actions); NoCollision(env, st.writers) && key in st.disk.receipts
    ensures var st := Run(env, EMPTY, actions); var r := st.disk.receipts[key];
      && r.digest in st.disk.bodies && |st.disk.bodies[r.digest]| == r.size
      && exists i :: 0 <= i < |st.writers| && StoredBy(env, st.writers[i], r)
                     && Content(st.writers[i].chunks) == st.disk.bodies[r.digest]
  {
    hide Kept, Run, NoCollision;
    ReachableKept(env, actions);
    ReceiptNamesBody(env, Run(env, EMPTY, actions), key);
  }

  /** Once a call for a URL has finished, every later `get` for it finds content that a finished call for it stored. */
  lemma {:induction false} FinishedStaysFound(env: Env, actions: seq<Action>, more: seq<Action>, i: nat)
    requires var st := Run(env, EMPTY, actions); i < |st.writers| && st.writers[i].phase.Finished?
    requires var later := Run(env, Run(env, EMPTY, actions), more);
      NoCollision(env, later.writers) && OwnKey(env, later.writers, Run(env, EMPTY, actions).writers[i].url)
    ensures var url := Run(env, EMPTY, actions).writers[i].url; var later := Run(env, Run(env, EMPTY, actions), more);
      && Get(env, later.disk, url, map[]).Some?
      && exists j :: 0 <= j < |later.writers| && later.writers[j].phase.Finished? && later.writers[j].url == url
                     && Content(later.writers[j].chunks) == Get(env, later.disk, url, map[]).value.body
  {
    hide Kept, Run, NoCollision, OwnKey, Get;
    var st := Run(env, EMPTY, actions);
    ReachableKept(env, actions);
    RunKept(env, st, more);
    NothingIsLost(env, st, more);
    FinishedIsFound(env, Run(env, st, more), i);
  }

  lemma FinishedHasBody(env: Env, st: State, i: nat)
    requires Kept(env, st) && i < |st.writers| && st.writers[i].phase.Finished?
    ensures var d := env.sha256(Content(st.writers[i].chunks));
      && |d| == 64 && d in st.disk.bodies && env.sha256(st.disk.bodies[d]) == d
      && (NoCollision(env, st.writers) ==> st.disk.bodies[d] == Content(st.writers[i].chunks))
  {
    hide Validates, Content;
    assert WriterKept(env, st.writers[i], st.disk);
    var d := env.sha256(Content(st.writers[i].chunks));
    assert Supplied(env, st.writers, st.disk.bodies[d]);
    var j :| 0 <= j < |st.writers| && Complete(env, st.writers[j]) && Content(st.writers[j].chunks) == st.disk.bodies[d];
    assert NoCollision(env, st.writers) ==>
      env.sha256(Content(st.writers[i].chunks)) == env.sha256(Content(st.writers[j].chunks)) ==>
        Content(st.writers[i].chunks) == Content(st.writers[j].chunks);
  }

  /**
    Once any call has finished, every later `get` for any URL that expects the digest of its content,
    in upper or lower case, finds content of that digest: short of a collision, that content.
  */
  lemma {:induction false} DigestStaysFound(
      env: Env, actions: seq<Action>, more: seq<Action>, i: nat, url: string, expected: map<string, string>)
    requires var st := Run(env, EMPTY, actions); i < |st.writers| && st.writers[i].phase.Finished?
    requires "sha256" in expected
    requires Text.Lower(expected["sha256"]) == env.sha256(Content(Run(env, EMPTY, actions).writers[i].chunks))
    ensures var content := Content(Run(env, EMPTY, actions).writers[i].chunks);
      var later := Run(env, Run(env, EMPTY, actions), more); var found := Get(env, later.disk, url, expected);
      && found.Some? && found.value.digest == env.sha256(content) == env.sha256(found.value.body)
      && (NoCollision(env, later.writers) ==> found.value.body == content)
  {
    hide Kept, Run, NoCollision, Get, Content;
    var st := Run(env, EMPTY, actions);
    ReachableKept(env, actions);
    RunKept(env, st, more);
    NothingIsLost(env, st, more);
    FinishedHasBody(env, Run(env, st, more), i);
    GetByDigest(env, Run(env, st, more).disk, url, expected);
  }

  // ---------- One call on its own ----------

  function Remaining(w: Writer): nat {
    match w.phase
    case Writing(next) => if next < |w.chunks| then |w.chunks| - next + 6 else 6
    case Ready => 5
    case Checked(_) => 4
    case Placed => 3
    case Described => 2
    case Finished => 0
    case Stopped => 0
  }

  /** The call runs to its end without interference. */
  function RunAlone(env: Env, w: Writer, disk: Disk): (Writer, Disk)
    decreases Remaining(w)
  {
    if w.phase.Finished? || w.phase.Stopped? then (w, disk)
    else
      var (w', disk') := Advance(env, w, disk);
      RunAlone(env, w', disk')
  }

  /** Running alone is one of the interleavings. */
  lemma {:induction false} AloneIsRun(env: Env, writers: seq<Writer>, i: nat, disk: Disk) returns (actions: seq<Action>)
    requires i < |writers|
    ensures var (w', disk') := RunAlone(env, writers[i], disk);
      Run(env, State(disk, writers), actions) == State(disk', writers[i := w'])
    decreases Remaining(writers[i])
  {
    hide Validates;
    var w := writers[i];
    if w.phase.Finished? || w.phase.Stopped? {
      actions := [];
      assert writers[i := w] == writers;
    } else {
      var (w1, disk1) := Advance(env, w, disk);
      var next := writers[i := w1];
      var rest := AloneIsRun(env, next, i, disk1);
      actions := [Act(i)] + rest;
      assert actions[1..] == rest;
      assert next[i := RunAlone(env, w1, disk1).0] == writers[i := RunAlone(env, w1, disk1).0];
    }
  }

  class Store {
    var bodies: map<string, Bytes>
    var receipts: map<string, Receipt>

    ghost function Abstract(): Disk
      reads this
    {
      Disk(bodies, receipts)
    }

    constructor ()
      ensures Abstract() == Disk(map[], map[])
    {
      bodies, receipts := map[], map[];
    }

    /** `store_chunks` with no other writer at work; `None` where it raises. */
    method StoreChunks(env: Env, url: string, filename: string, chunks: seq<Bytes>, expected: map<string, string>)
      returns (artifact: Option<Artifact>)
      modifies this
      ensures var (w, disk) := RunAlone(env, Start(url, filename, chunks, expected), old(Abstract()));
        && Abstract() == disk
        && (artifact.Some? <==> w.phase.Finished?)
        && (artifact.Some? ==>
             env.sha256(w.hashed) in bodies
             && artifact.value == Artifact(env.sha256(w.hashed), bodies[env.sha256(w.hashed)]))
    {
      hide Validates;
      var temporary: Bytes, hashed: Bytes, size: nat := [], [], 0;
      ghost var w := Start(url, filename, chunks, expected);
      ghost var start := Abstract();
      for i := 0 to |chunks|
        invariant w == Writer(url, filename, chunks, expected, Writing(i), temporary, hashed, size)
        invariant RunAlone(env, Start(url, filename, chunks, expected), start) == RunAlone(env, w, start)
        invariant Abstract() == start
      {
        w := Advance(env, w, start).0;
        if chunks[i] == [] {
          continue;
        }
        temporary := temporary + chunks[i];
        size := size + |chunks[i]|;
        hashed := hashed + chunks[i];
      }
      var valid := ValidateHashes(env, hashed, expected);
      w := Advance(env, w, start).0;
      if !valid {
        return None;
      }
      artifact := PublishBody(env, w, temporary, env.sha256(hashed), size);
      if artifact.None? {
        return None;
      }
      receipts := receipts[env.urlKey(url) := Receipt(url, env.sha256(hashed), size, filename)];
    }

    /** `_publish_body`: keep a body that is there, or move the temporary file into place. */
    method PublishBody(
        env: Env, ghost w: Writer, temporary: Bytes, digest: string,
        size: nat) returns (artifact: Option<Artifact>)
      requires w.phase == Ready && w.temporary == temporary && digest == env.sha256(w.hashed) && size == w.size
      modifies this
      ensures receipts == old(receipts)
      ensures artifact.Some? ==> digest in bodies && artifact.value == Artifact(digest, bodies[digest])
      ensures RunAlone(env, w, old(Abstract())) ==
        RunAlone(env, w.(phase := if artifact.Some? then Described else Stopped), Abstract())
    {
      ghost var before := Abstract();
      if digest !in bodies {
        bodies := bodies[digest := temporary];
      }
      assert RunAlone(env, w, before) == RunAlone(env, w.(phase := Checked(digest in before.bodies)), before);
      assert RunAlone(env, w.(phase := Checked(digest in before.bodies)), before) == RunAlone(env, w.(phase := Placed), Abstract());
      var body := Body(Disk(bodies, receipts), digest, Some(size));
      if body.None? {
        return None;
      }
      return Some(Artifact(digest, body.value));
    }
  }

  /** `_validate_hashes`: the loop over the expected hashes. */
  method ValidateHashes(env: Env, content: Bytes, expected: map<string, string>) returns (valid: bool)
    ensures valid <==> Validates(env, content, expected)
  {
    var algorithms := expected.Keys;
    while algorithms != {}
      invariant algorithms <= expected.Keys
      invariant Validates(env, content, expected - algorithms)
    {
      var algorithm :| algorithm in algorithms;
      var actual :=
        if algorithm == "sha256" then Some(env.sha256(content))
        else if algorithm in env.others then Some(env.others[algorithm](content))
        else None;
      if actual.Some? && Text.Lower(actual.value) != Text.Lower(expected[algorithm]) {
        return false;
      }
      algorithms := algorithms - {algorithm};
    }
    assert expected - {} == expected;
    return true;
  }
}
