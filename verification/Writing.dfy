/**
 * The s3WritableFile of internal/s3fs/file.go: an object opened for writing is downloaded to a temporary file when
 * first used, changed there, and uploaded whole on Close.
 */
module Writing {
  import opened Base
  import opened Paths
  import opened Storage
  import opened Coherence
  import FileSystem

  // ----- A plain file, the reference -----

  datatype ByteFile = ByteFile(data: Bytes, pos: nat)

  datatype FileOp = ReadOp(len: nat) | WriteOp(bytes: Bytes) | SeekOp(offset: int, whence: int) | TruncateOp

  datatype Outcome = Delivered(bytes: Bytes, eof: bool) | Wrote(count: nat) | Moved(to: nat) | Truncated | Rejected

  /** Writing at a position overwrites, and extends with zeros if need be; writing nothing changes nothing. */
  function WriteAt(data: Bytes, pos: nat, bytes: Bytes): Bytes {
    if bytes == [] then data
    else
      var base := if pos <= |data| then data[..pos] else data + Zeros(pos - |data|);
      base + bytes + (if pos + |bytes| < |data| then data[pos + |bytes|..] else [])
  }

  function Apply(f: ByteFile, op: FileOp): (ByteFile, Outcome) {
    match op
    case ReadOp(len) =>
      var n := if f.pos >= |f.data| then 0 else Min(len, |f.data| - f.pos);
      (f.(pos := f.pos + n), Delivered(if n == 0 then [] else f.data[f.pos..f.pos + n], n == 0 && len > 0))
    case WriteOp(bytes) => (ByteFile(WriteAt(f.data, f.pos, bytes), f.pos + |bytes|), Wrote(|bytes|))
    case SeekOp(offset, whence) =>
      var t := if whence == 0 then offset else if whence == 1 then f.pos + offset else |f.data| + offset;
      if whence < 0 || whence > 2 || t < 0 then (f, Rejected) else (f.(pos := t), Moved(t))
    case TruncateOp => (f.(data := []), Truncated)
  }

  // ----- What a plain file does -----

  /** A write changes exactly the bytes it covers: the rest stays, and a gap before it is zeros. */
  lemma WriteLaw(data: Bytes, pos: nat, bytes: Bytes)
    requires bytes != []
    ensures var w := WriteAt(data, pos, bytes);
            && |w| == (if |data| > pos + |bytes| then |data| else pos + |bytes|)
            && w[pos..pos + |bytes|] == bytes
            && (forall i :: 0 <= i < |data| && !(pos <= i < pos + |bytes|) ==> w[i] == data[i])
            && (forall i :: |data| <= i < pos ==> w[i] == 0 as char)
  {
    var w := WriteAt(data, pos, bytes);
    assert w[pos..pos + |bytes|] == bytes;
  }

  /** What is written is what is read back there, and writing nothing changes nothing. */
  lemma WriteReadBack(f: ByteFile, bytes: Bytes)
    ensures var (g, wrote) := Apply(f, WriteOp(bytes));
            var (h, moved) := Apply(g, SeekOp(0 - |bytes|, 1));
            && wrote == Wrote(|bytes|) && g.pos == f.pos + |bytes|
            && moved == Moved(f.pos) && h == ByteFile(g.data, f.pos)
            && (bytes == [] ==> g == f)
            && (bytes != [] ==> Apply(h, ReadOp(|bytes|)) == (g, Delivered(bytes, false)))
  {
    if bytes != [] {
      WriteLaw(f.data, f.pos, bytes);
    }
  }

  /** A read delivers the bytes at the position, as many as there are, and moves behind them; none at the end. */
  lemma ReadLaw(f: ByteFile, len: nat)
    ensures var (g, out) := Apply(f, ReadOp(len));
            && out.Delivered? && g == ByteFile(f.data, f.pos + |out.bytes|)
            && |out.bytes| <= len && (forall i :: 0 <= i < |out.bytes| ==>
                                        f.pos + i < |f.data| && out.bytes[i] == f.data[f.pos + i])
            && (|out.bytes| < len ==> g.pos >= |f.data|)
            && (out.eof <==> len > 0 && f.pos >= |f.data|)
  {
  }

  /** Reading a and then b bytes is reading a + b. */
  lemma ReadsJoin(f: ByteFile, a: nat, b: nat)
    ensures var (g, first) := Apply(f, ReadOp(a));
            var (h, second) := Apply(g, ReadOp(b));
            var (whole, both) := Apply(f, ReadOp(a + b));
            whole == h && both.bytes == first.bytes + second.bytes
  {
    var (g, first) := Apply(f, ReadOp(a));
    var (h, second) := Apply(g, ReadOp(b));
    var (whole, both) := Apply(f, ReadOp(a + b));
    assert |both.bytes| == |first.bytes + second.bytes|;
    assert forall i :: 0 <= i < |both.bytes| ==> both.bytes[i] == (first.bytes + second.bytes)[i];
  }

  /** Seeks go from the start, from the position or from the end, and never before the start. */
  lemma SeekLaw(f: ByteFile, n: int)
    requires n >= 0
    ensures Apply(f, SeekOp(n, 0)) == (ByteFile(f.data, n), Moved(n))
    ensures Apply(f, SeekOp(n, 1)) == (ByteFile(f.data, f.pos + n), Moved(f.pos + n))
    ensures Apply(f, SeekOp(n, 2)) == (ByteFile(f.data, |f.data| + n), Moved(|f.data| + n))
    ensures n > 0 ==> Apply(f, SeekOp(-n, 0)) == (f, Rejected)
    ensures Apply(f, SeekOp(-n, 1)) == if n <= f.pos then (ByteFile(f.data, f.pos - n), Moved(f.pos - n)) else (f, Rejected)
    ensures Apply(f, SeekOp(-n, 2)) ==
            if n <= |f.data| then (ByteFile(f.data, |f.data| - n), Moved(|f.data| - n)) else (f, Rejected)
    ensures forall w, d :: w < 0 || w > 2 ==> Apply(f, SeekOp(d, w)) == (f, Rejected)
  {
  }

  /** A truncation leaves nothing to read and keeps the position. */
  lemma TruncateLaw(f: ByteFile, len: nat)
    requires len > 0
    ensures var (g, out) := Apply(f, TruncateOp);
            && out == Truncated && g.pos == f.pos && g.data == []
            && Apply(g, ReadOp(len)) == (g, Delivered([], true))
  {
  }

  // ----- Sessions, the reference -----

  /** An operation of a session, with the S3 calls that fail while it runs and where a download breaks off, if it does. */
  datatype Use = Use(op: FileOp, down: set<S3Call>, cut: Option<nat>)

  /** What there is of a file opened for writing: what broken downloads have left, or a file in use. */
  datatype Seen = Waiting(received: Bytes) | Live(file: ByteFile) {
    function Content(): Bytes {
      if Live? then file.data else received
    }
  }

  /**
   * The reference. The first operation that needs the object and gets it finds it behind what broken downloads have
   * left; one that does not get it is rejected. A truncation before that empties the file but keeps the position.
   */
  function ApplyUse(s: Seen, key: string, stored: Option<Bytes>, use: Use): (Seen, Outcome) {
    if s.Waiting? && use.op.TruncateOp? then (Live(ByteFile([], |s.received|)), Truncated)
    else if s.Waiting? && (stored.None? || Get(key) in use.down) then (s, Rejected)
    else if s.Waiting? && use.cut.Some? then (Waiting(s.received + Front(stored.value, use.cut.value)), Rejected)
    else
      var (f, out) := Apply(if s.Live? then s.file else ByteFile(s.received + stored.value, 0), use.op);
      (Live(f), out)
  }

  /** The first n bytes, or all if there are fewer. */
  function Front(data: Bytes, n: nat): (front: Bytes)
    ensures front <= data && |front| == if n < |data| then n else |data|
  {
    data[..Min(n, |data|)]
  }

  function ApplyAll(s: Seen, key: string, stored: Option<Bytes>, uses: seq<Use>): (Seen, seq<Outcome>) {
    if uses == [] then (s, [])
    else
      var (g, outs) := ApplyAll(s, key, stored, uses[..|uses| - 1]);
      var (h, out) := ApplyUse(g, key, stored, uses[|uses| - 1]);
      (h, outs + [out])
  }

  /** What is downloaded goes behind what is there, so it is the object's bytes exactly if nothing was. */
  lemma RetryAppends(tmp: Bytes, data: Bytes)
    ensures WriteAt(tmp, |tmp|, data) == tmp + data
    ensures WriteAt(tmp, |tmp|, data) == data <==> tmp == []
  {
    assert tmp[..|tmp|] == tmp;
    assert WriteAt(tmp, |tmp|, data) == tmp + data;
    if tmp == [] {
      assert [] + data == data;
    } else {
      assert |tmp + data| > |data|;
    }
  }

  class WritableFile {
    const fs: FileSystem.S3FS
    const path: string
    const key: string
    const inode: nat
    var tmp: Bytes
    var pos: nat
    var downloaded: bool
    var closed: bool

    /** newWritableFile, or newEmptyWritableFile for an object just created. */
    constructor (fs: FileSystem.S3FS, path: string, key: string, inode: nat, created: bool)
      requires IsFile(key)
      ensures this.fs == fs && this.path == path && this.key == key && this.inode == inode
      ensures tmp == [] && pos == 0 && !closed && downloaded == created
    {
      this.fs, this.path, this.key, this.inode := fs, path, key, inode;
      tmp, pos, downloaded, closed := [], 0, created, false;
    }

    /** Until a download is complete, the temporary file stands at its end. */
    ghost predicate Valid()
      reads this
    {
      IsFile(key) && (!downloaded ==> pos == |tmp|)
    }

    ghost function State(): Seen
      reads this
    {
      if downloaded then Live(ByteFile(tmp, pos)) else Waiting(tmp)
    }

    /** The bytes of the object in the bucket. */
    ghost function Stored(): Option<Bytes>
      reads this, fs, fs.bucket
    {
      if key in fs.bucket.objects then Some(fs.bucket.objects[key].data) else None
    }

    /**
     * ensureDownloaded. `cut` says after how many bytes the body breaks off, if it does; what was received by then
     * stays in the temporary file, and a later download goes behind it. So a download that succeeds leaves the object's
     * bytes exactly if none broke off before with something received.
     */
    method EnsureDownloaded(down: set<S3Call>, cut: Option<nat>) returns (ok: bool)
      requires Valid()
      modifies this`tmp, this`pos, this`downloaded
      ensures Valid() && (ok <==> downloaded)
      ensures old(downloaded) ==> ok && tmp == old(tmp) && pos == old(pos)
      ensures !old(downloaded) ==>
                var stored := Stored();
                if stored.None? || Get(key) in down then !ok && tmp == old(tmp)
                else if cut.Some? then !ok && tmp == old(tmp) + Front(stored.value, cut.value)
                else ok && pos == 0 && tmp == old(tmp) + stored.value && (tmp == stored.value <==> old(tmp) == [])
    {
      if downloaded {
        return true;
      }
      var reply := fs.bucket.GetObject(key, down);
      if reply.None? {
        return false;
      }
      var body := if cut.Some? then Front(reply.value.data, cut.value) else reply.value.data;
      RetryAppends(tmp, body);
      tmp := WriteAt(tmp, pos, body);
      pos := pos + |body|;
      if cut.Some? {
        return false;
      }
      pos := 0;
      downloaded := true;
      return true;
    }

    /** Read, Write, Seek and Truncate: they act as the reference says, and not at all once the file is closed. */
    method Do(op: FileOp, down: set<S3Call>, cut: Option<nat>) returns (out: Outcome)
      requires Valid()
      modifies this`tmp, this`pos, this`downloaded
      ensures Valid()
      ensures closed ==> out == Rejected && tmp == old(tmp) && pos == old(pos) && downloaded == old(downloaded)
      ensures !closed ==> (State(), out) == ApplyUse(old(State()), key, Stored(), Use(op, down, cut))
    {
      hide WriteAt;
      if closed {
        return Rejected;
      }
      if op.TruncateOp? {
        downloaded := true;
        tmp := [];
        return Truncated;
      }
      var ok := EnsureDownloaded(down, cut);
      if !ok {
        return Rejected;
      }
      hide Apply;
      out := DoOnTemp(op);
    }

    /** The operation on the temporary file itself. */
    method DoOnTemp(op: FileOp) returns (out: Outcome)
      requires !op.TruncateOp?
      modifies this`tmp, this`pos
      ensures (ByteFile(tmp, pos), out) == Apply(ByteFile(old(tmp), old(pos)), op)
    {
      hide WriteAt;
      match op
      case ReadOp(len) =>
        var n := if pos >= |tmp| then 0 else Min(len, |tmp| - pos);
        out := Delivered(if n == 0 then [] else tmp[pos..pos + n], n == 0 && len > 0);
        pos := pos + n;
      case WriteOp(bytes) =>
        tmp := WriteAt(tmp, pos, bytes);
        pos := pos + |bytes|;
        out := Wrote(|bytes|);
      case SeekOp(offset, whence) =>
        var target;
        if whence == 0 {
          target := offset;
        } else if whence == 1 {
          target := pos + offset;
        } else {
          target := |tmp| + offset;
        }
        if whence < 0 || whence > 2 || target < 0 {
          return Rejected;
        }
        pos := target;
        out := Moved(pos);
    }

    /**
     * Close publishes the temporary file in one put. Before the first operation that gets through, that is what broken
     * downloads have left: an object opened and closed untouched is replaced by nothing, and stays as it was exactly if
     * it was empty.
     */
    method Close(now: int, down: set<S3Call>) returns (ok: bool)
      requires fs.Good() && Valid()
      modifies this`closed, fs.bucket, fs.cache, fs`pending
      ensures fs.Good() && closed && State() == old(State())
      ensures old(closed) ==> ok && fs.bucket.objects == old(fs.bucket.objects) && fs.Cached() == old(fs.Cached())
      ensures !old(closed) ==> (ok <==> Put(key) !in down)
      ensures !old(closed) && !ok ==> fs.bucket.objects == old(fs.bucket.objects)
      ensures !old(closed) && ok ==>
                && fs.bucket.objects == old(fs.bucket.objects)[key := FileSystem.NewFile(State().Content(), now)]
                && key in fs.Cached() && !fs.Cached()[key].negative && Current(fs.bucket.objects[key], fs.Cached()[key])
      ensures !old(closed) && ok && State() == Waiting([]) && old(Stored()).Some? ==>
                (Stored() == old(Stored()) <==> old(Stored()).value == [])
    {
      hide Coherent, FreshListings, ParentPrefix, ParseMode, Format;
      if closed {
        return true;
      }
      closed := true;
      ok := fs.CommitUpload(key, path, tmp, inode, now, down);
      if ok {
        FileSystem.HitIsCurrent(fs.bucket.objects, fs.Cached(), key);
      }
    }
  }

  /**
   * Write-on-close, over every session on a file opened for writing, whatever downloads are refused or break off: the
   * bucket is left alone until Close, the answers are those of the reference, and Close publishes, in one put that may
   * fail, exactly the content the reference ends with.
   */
  method Session(fs: FileSystem.S3FS, path: string, key: string, inode: nat, created: bool, uses: seq<Use>, now: int,
                 closing: set<S3Call>) returns (outs: seq<Outcome>, ok: bool)
    requires fs.Good() && IsFile(key)
    modifies fs.bucket, fs.cache, fs`pending
    ensures fs.Good() && (ok <==> Put(key) !in closing)
    ensures var stored := if key in old(fs.bucket.objects) then Some(old(fs.bucket.objects)[key].data) else None;
            var (end, answers) := ApplyAll(Opening(created), key, stored, uses);
            && outs == answers
            && fs.bucket.objects == (if ok then old(fs.bucket.objects)[key := FileSystem.NewFile(end.Content(), now)]
                                     else old(fs.bucket.objects))
  {
    hide ApplyUse, Coherent, FreshListings;
    var f := new WritableFile(fs, path, key, inode, created);
    ghost var stored := f.Stored();
    outs := [];
    for i := 0 to |uses|
      invariant f.fs == fs && f.key == key && !f.closed && f.Valid() && fs.Good()
      invariant fs.bucket.objects == old(fs.bucket.objects)
      invariant (f.State(), outs) == ApplyAll(Opening(created), key, stored, uses[..i])
    {
      assert uses[..i + 1][..i] == uses[..i];
      var out := f.Do(uses[i].op, uses[i].down, uses[i].cut);
      outs := outs + [out];
    }
    assert uses[..|uses|] == uses;
    ok := f.Close(now, closing);
  }

  function Opening(created: bool): Seen {
    if created then Live(ByteFile([], 0)) else Waiting([])
  }

  /** No download of the session breaks off after it has delivered something. */
  ghost predicate Unbroken(stored: Option<Bytes>, uses: seq<Use>) {
    forall i :: 0 <= i < |uses| && uses[i].cut.Some? && stored.Some? ==> Front(stored.value, uses[i].cut.value) == []
  }

  /** Run a plain file through the operations. */
  function Plain(f: ByteFile, uses: seq<Use>): (ByteFile, seq<Outcome>) {
    if uses == [] then (f, [])
    else
      var (g, outs) := Plain(f, uses[..|uses| - 1]);
      var (h, out) := Apply(g, uses[|uses| - 1].op);
      (h, outs + [out])
  }

  /** The operation needs the object, and does not get it whole. */
  predicate GetsNothing(key: string, stored: Option<Bytes>, use: Use) {
    !use.op.TruncateOp? && (stored.None? || Get(key) in use.down || use.cut.Some?)
  }

  /** The first k operations are rejected, and the others make a plain file of the object's bytes, to the end. */
  ghost predicate PlainAfter(key: string, stored: Option<Bytes>, created: bool, uses: seq<Use>, k: nat)
    requires k <= |uses|
  {
    var (end, outs) := ApplyAll(Opening(created), key, stored, uses);
    var start := ByteFile(if created || stored.None? then [] else stored.value, 0);
    var (f, rest) := Plain(start, uses[k..]);
    && outs == seq(k, _ => Rejected) + rest
    && end == if created || k < |uses| then Live(f) else Waiting([])
  }

  /**
   * The law of the design: where no download breaks off half-way, the operations that are not rejected make a plain file
   * of the object's bytes. The first k are rejected, those that need the object and do not get it; from the first that
   * gets it, or truncates, every outcome and the final content are the plain file's.
   */
  lemma {:induction false} ActsAsPlainFile(key: string, stored: Option<Bytes>, created: bool, uses: seq<Use>)
      returns (k: nat)
    requires Unbroken(stored, uses)
    ensures k <= |uses| && (created ==> k == 0)
    ensures forall i :: 0 <= i < k ==> GetsNothing(key, stored, uses[i])
    ensures k < |uses| && !created ==> !GetsNothing(key, stored, uses[k])
    ensures PlainAfter(key, stored, created, uses, k)
    decreases |uses|
  {
    if uses == [] {
      k := 0;
    } else {
      hide Apply, ApplyAll, PlainAfter, GetsNothing;
      var before, last := uses[..|uses| - 1], uses[|uses| - 1];
      k := ActsAsPlainFile(key, stored, created, before);
      assert forall i :: 0 <= i < k ==> GetsNothing(key, stored, before[i]) && before[i] == uses[i];
      if created || k < |before| {
        PlainOneMore(key, stored, created, uses, k);
      } else {
        PlainAtLast(key, stored, uses);
        if GetsNothing(key, stored, last) {
          k := k + 1;
        }
      }
    }
  }

  lemma PlainOneMore(key: string, stored: Option<Bytes>, created: bool, uses: seq<Use>, k: nat)
    requires uses != [] && k < |uses| && (created || k < |uses| - 1)
    requires PlainAfter(key, stored, created, uses[..|uses| - 1], k)
    ensures PlainAfter(key, stored, created, uses, k)
  {
    hide Apply;
    assert uses[k..][..|uses[k..]| - 1] == uses[..|uses| - 1][k..];
  }

  lemma PlainAtLast(key: string, stored: Option<Bytes>, uses: seq<Use>)
    requires uses != [] && Unbroken(stored, uses)
    requires PlainAfter(key, stored, false, uses[..|uses| - 1], |uses| - 1)
    ensures PlainAfter(key, stored, false, uses,
                       if GetsNothing(key, stored, uses[|uses| - 1]) then |uses| else |uses| - 1)
  {
    hide Apply, GetsNothing;
    var before, last, n := uses[..|uses| - 1], uses[|uses| - 1], |uses| - 1;
    var start := ByteFile(if stored.None? then [] else stored.value, 0);
    assert before[n..] == [] && uses[|uses|..] == [] && uses[n..] == [last];
    OneMoreWaiting(key, stored, last, start);
  }

  lemma OneMoreWaiting(key: string, stored: Option<Bytes>, use: Use, start: ByteFile)
    requires start == ByteFile(if stored.None? then [] else stored.value, 0)
    requires use.cut.Some? && stored.Some? ==> Front(stored.value, use.cut.value) == []
    ensures var (s, out) := ApplyUse(Waiting([]), key, stored, use);
            if GetsNothing(key, stored, use) then s == Waiting([]) && out == Rejected
            else s == Live(Apply(start, use.op).0) && out == Apply(start, use.op).1
  {
    if stored.Some? {
      assert [] + stored.value == stored.value;
      assert [] + Front(stored.value, 0) == Front(stored.value, 0);
    }
  }

  /** What the broken downloads of operations that did not get the object delivered, one after the other. */
  function Received(key: string, stored: Option<Bytes>, uses: seq<Use>): Bytes {
    if uses == [] then []
    else
      var last := uses[|uses| - 1];
      Received(key, stored, uses[..|uses| - 1]) +
      (if Delivers(key, stored, last) then Front(stored.value, last.cut.value) else [])
  }

  /** The operation asks for the object, and the body breaks off. */
  predicate Delivers(key: string, stored: Option<Bytes>, use: Use) {
    !use.op.TruncateOp? && stored.Some? && Get(key) !in use.down && use.cut.Some?
  }

  /** Operations that do not get the object are rejected, and what their downloads delivered piles up. */
  lemma {:induction false} PilesUp(key: string, stored: Option<Bytes>, uses: seq<Use>)
    requires forall i :: 0 <= i < |uses| ==> GetsNothing(key, stored, uses[i])
    ensures ApplyAll(Waiting([]), key, stored, uses) ==
            (Waiting(Received(key, stored, uses)), seq(|uses|, _ => Rejected))
    decreases |uses|
  {
    if uses == [] {
    } else {
      PilesUp(key, stored, uses[..|uses| - 1]);
      assert seq(|uses|, _ => Rejected) == seq(|uses| - 1, _ => Rejected) + [Rejected];
      assert GetsNothing(key, stored, uses[|uses| - 1]);
      var r := Received(key, stored, uses[..|uses| - 1]);
      assert r + [] == r;
    }
  }

  lemma {:induction false} ReceivedNothingIff(key: string, stored: Option<Bytes>, uses: seq<Use>)
    ensures Received(key, stored, uses) == [] <==>
            forall i :: 0 <= i < |uses| && Delivers(key, stored, uses[i]) ==> uses[i].cut.value == 0 || stored.value == []
    decreases |uses|
  {
    if uses == [] {
    } else {
      var before := uses[..|uses| - 1];
      ReceivedNothingIff(key, stored, before);
      assert forall i :: 0 <= i < |before| ==> before[i] == uses[i];
    }
  }

  /**
   * The first operation that gets the object finds it behind what had been received: the file is the object's bytes if
   * and only if no download before it broke off after a first byte. Closed before that, the file is what was received.
   */
  lemma {:induction false} FindsObjectIff(key: string, stored: Option<Bytes>, uses: seq<Use>, use: Use)
    requires forall i :: 0 <= i < |uses| ==> GetsNothing(key, stored, uses[i])
    requires !use.op.TruncateOp? && !GetsNothing(key, stored, use)
    ensures var found := Received(key, stored, uses) + stored.value;
            && ApplyAll(Waiting([]), key, stored, uses).0.Content() == Received(key, stored, uses)
            && ApplyAll(Waiting([]), key, stored, uses + [use]).0 == Live(Apply(ByteFile(found, 0), use.op).0)
            && (found == stored.value <==>
                forall i :: 0 <= i < |uses| && Delivers(key, stored, uses[i]) ==>
                  uses[i].cut.value == 0 || stored.value == [])
  {
    hide Apply, Delivers;
    PilesUp(key, stored, uses);
    ReceivedNothingIff(key, stored, uses);
    assert (uses + [use])[..|uses|] == uses;
    var r := Received(key, stored, uses);
    if r == [] {
      assert r + stored.value == stored.value;
    } else {
      assert |r + stored.value| > |stored.value|;
    }
  }

  /**
   * A session that goes wrong: a read whose download breaks off after n bytes, a second read, and Close. The object is
   * then what was received followed by all of it.
   */
  method RetrySession(fs: FileSystem.S3FS, path: string, key: string, inode: nat, len: nat, n: nat, now: int)
    requires fs.Good() && IsFile(key) && key in fs.bucket.objects && fs.bucket.objects[key].data != [] && n > 0
    modifies fs.bucket, fs.cache, fs`pending
    ensures fs.Good() && key in fs.bucket.objects
    ensures var data := old(fs.bucket.objects)[key].data;
            && fs.bucket.objects[key].data == (if n < |data| then data[..n] else data) + data
            && fs.bucket.objects[key].data != data
  {
    hide Coherent, FreshListings, Apply, ApplyAll, Front;
    RetryEnds(key, fs.bucket.objects[key].data, len, n);
    var outs, ok := Session(fs, path, key, inode, false,
                            [Use(ReadOp(len), {}, Some(n)), Use(ReadOp(len), {}, None)], now, {});
  }

  lemma RetryEnds(key: string, data: Bytes, len: nat, n: nat)
    requires data != [] && n > 0
    ensures var uses := [Use(ReadOp(len), {}, Some(n)), Use(ReadOp(len), {}, None)];
            var content := ApplyAll(Waiting([]), key, Some(data), uses).0.Content();
            content == (if n < |data| then data[..n] else data) + data && content != data
  {
    hide Apply, ApplyAll, Received, Front;
    var broken, again := Use(ReadOp(len), {}, Some(n)), Use(ReadOp(len), {}, None);
    ReceivedOnce(key, data, broken);
    FindsObjectIff(key, Some(data), [broken], again);
    assert [broken] + [again] == [broken, again];
    ReadKeeps(ByteFile(Front(data, n) + data, 0), len);
    assert |Front(data, n) + data| > |data|;
  }

  lemma ReceivedOnce(key: string, data: Bytes, use: Use)
    requires Delivers(key, Some(data), use)
    ensures Received(key, Some(data), [use]) == Front(data, use.cut.value)
  {
    assert [use][..0] == [] && [] + Front(data, use.cut.value) == Front(data, use.cut.value);
  }

  lemma ReadKeeps(f: ByteFile, len: nat)
    ensures Apply(f, ReadOp(len)).0.data == f.data
  {
  }

  /** Closed right after the broken download, the object is the part that was received. */
  method BrokenSession(fs: FileSystem.S3FS, path: string, key: string, inode: nat, len: nat, n: nat, now: int)
    requires fs.Good() && IsFile(key) && key in fs.bucket.objects
    modifies fs.bucket, fs.cache, fs`pending
    ensures fs.Good() && key in fs.bucket.objects
    ensures var data := old(fs.bucket.objects)[key].data;
            && fs.bucket.objects[key].data == (if n < |data| then data[..n] else data)
            && (fs.bucket.objects[key].data == data <==> n >= |data|)
  {
    hide Coherent, FreshListings, Apply, ApplyAll, Front;
    BreakEnds(key, fs.bucket.objects[key].data, len, n);
    var outs, ok := Session(fs, path, key, inode, false, [Use(ReadOp(len), {}, Some(n))], now, {});
  }

  lemma BreakEnds(key: string, data: Bytes, len: nat, n: nat)
    ensures ApplyAll(Waiting([]), key, Some(data), [Use(ReadOp(len), {}, Some(n))]).0.Content() ==
            if n < |data| then data[..n] else data
  {
    hide Apply, ApplyAll, Received, Front;
    var broken := Use(ReadOp(len), {}, Some(n));
    ReceivedOnce(key, data, broken);
    PilesUp(key, Some(data), [broken]);
  }

  /**
   * A truncation keeps the position, so what is written after a broken download and a truncation comes behind as many
   * zeros as bytes had been received: it is the whole content exactly if there were none.
   */
  lemma TruncateLeavesGap(received: Bytes, key: string, stored: Option<Bytes>, t: Use, w: Use)
    requires t.op.TruncateOp? && w.op.WriteOp? && w.op.bytes != []
    ensures var s := ApplyUse(ApplyUse(Waiting(received), key, stored, t).0, key, stored, w).0;
            && s.Content() == Zeros(|received|) + w.op.bytes
            && (s.Content() == w.op.bytes <==> received == [])
  {
    var bytes := w.op.bytes;
    assert WriteAt([], |received|, bytes) == Zeros(|received|) + bytes by {
      assert [] + Zeros(|received|) == Zeros(|received|) && [][..0] + bytes + [] == bytes;
    }
    if received == [] {
      assert Zeros(0) + bytes == bytes;
    } else {
      assert |Zeros(|received|) + bytes| > |bytes|;
    }
  }
}
