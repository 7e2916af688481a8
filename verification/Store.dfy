/**
 The streaming store of crates/whirl-worker/src/pipeline.rs:590-637, 1361-1512 and the cache half of
 `fill` (1568-1589): a part file, a running hash, a byte cap and a head window, published by one rename.
 What a read, a write or another call on the file system answers is a parameter.
 */
module Store {
  import opened Basics
  import opened CachePaths
  import opened Heads
  import opened Octets
  import opened Sha256
  import opened Sha256Spec
  import opened Sniff

  datatype Read = Chunk(bytes: Bytes) | Broken

  datatype Code = Offline | TooLarge | Enospc | CacheReadonly | NoImage | CacheUnwritable

  datatype Stored = Stored(digest: string, path: string, bytes: nat, header: Header, hit: bool)

  datatype Outcome = Done(stored: Stored) | Failed(code: Code)

  /**
   Which calls fail: directories, the connection, one attempt at a part file, one write, the flush, the
   unlink, the re-read of an existing file, the directory of the final path, the rename.
   */
  datatype Faults = Faults(
    dirs: bool, connect: bool, create: Option<nat>, write: Option<nat>, full: bool, flush: bool, unlink: bool,
    reread: bool, parent: bool, rename: bool)

  function TmpPath(root: string, name: string): string { root + "/tmp/" + name }

  function Named(content: Bytes): string { HexText(Hash(content)) }

  /** A file is there and its bytes hash to the digest. */
  predicate Holds(files: map<string, Bytes>, path: string, digest: string)
  {
    path in files && Named(files[path]) == digest
  }

  // --- What a store decides -------------------------------------------------------------

  /** The part file: the first of the names tried that is not taken, unless another error comes first. */
  function PartName(files: map<string, Bytes>, root: string, names: seq<string>, i: nat, fault: Option<nat>):
    Option<string>
    requires i <= |names|
    decreases |names| - i
  {
    if i == |names| || fault == Some(i) then None
    else if TmpPath(root, names[i]) !in files then Some(TmpPath(root, names[i]))
    else PartName(files, root, names, i + 1, fault)
  }

  function WriteCode(full: bool): Code { if full then Enospc else CacheReadonly }

  /** The failure of the read loop from read number i on, if there is one, after `total` bytes. */
  function Trouble(input: seq<Read>, i: nat, total: nat, cap: nat, faults: Faults): Option<Code>
    requires i <= |input|
    decreases |input| - i
  {
    if i == |input| then None
    else if input[i].Broken? then Some(Offline)
    else if total + |input[i].bytes| > cap then Some(TooLarge)
    else if faults.write == Some(i) then Some(WriteCode(faults.full))
    else Trouble(input, i + 1, total + |input[i].bytes|, cap, faults)
  }

  /** The chunks of the first n input. */
  function Chunks(input: seq<Read>, n: nat): (cs: seq<Bytes>)
    requires n <= |input|
    ensures |cs| == n
  {
    seq(n, i requires 0 <= i < n => if input[i].Chunk? then input[i].bytes else [])
  }

  /** What happens to a complete stream: its verdict, then its place under `sha256/`. */
  function Placed(files: map<string, Bytes>, root: string, s: Bytes, verdict: Verdict, faults: Faults): Outcome
  {
    if !verdict.Measured? then Failed(NoImage)
    else
      var path := ContentPath(root, Named(s), verdict.header.ext);
      var hit := Holds(files, path, Named(s)) && !faults.reread;
      if !hit && (faults.parent || faults.rename) then Failed(CacheUnwritable)
      else Done(Stored(Named(s), path, |s|, verdict.header, hit))
  }

  function Expected(files: map<string, Bytes>, root: string, input: seq<Read>, names: seq<string>, cap: nat,
                    size: HeicSize, faults: Faults): Outcome
  {
    if faults.dirs then Failed(CacheUnwritable)
    else if faults.connect then Failed(Offline)
    else if PartName(files, root, names, 0, faults.create).None? then Failed(CacheUnwritable)
    else
      match Trouble(input, 0, 0, cap, faults)
      case Some(code) => Failed(code)
      case None =>
        if faults.flush then Failed(WriteCode(faults.full))
        else
          var cs := Chunks(input, |input|);
          Placed(files, root, Flat(cs), Sniffed(HeadOf(cs, size), size), faults)
  }

  /** The same files, except perhaps for the new part file when it could not be unlinked. */
  predicate SamePlus(before: map<string, Bytes>, after: map<string, Bytes>, part: string, stuck: bool)
  {
    part !in before && (after == before || (stuck && part in after && after == before[part := after[part]]))
  }

  /** What a store leaves behind: only a success that is no hit adds a file, and it holds the stream. */
  predicate Leaves(before: map<string, Bytes>, after: map<string, Bytes>, part: string, r: Outcome, s: Bytes,
                   stuck: bool)
  {
    if r.Done? && !r.stored.hit then after == before[r.stored.path := s]
    else SamePlus(before, after, part, stuck)
  }

  predicate StoreLeaves(before: map<string, Bytes>, after: map<string, Bytes>, root: string, input: seq<Read>,
                        names: seq<string>, faults: Faults, r: Outcome)
  {
    var part := PartName(before, root, names, 0, faults.create);
    if faults.dirs || faults.connect || part.None? then after == before
    else Leaves(before, after, part.value, r, Flat(Chunks(input, |input|)), faults.unlink)
  }

  lemma OneMoreRead(input: seq<Read>, i: nat, size: HeicSize)
    requires i < |input| && input[i].Chunk?
    ensures Flat(Chunks(input, i + 1)) == Flat(Chunks(input, i)) + input[i].bytes
    ensures HeadOf(Chunks(input, i + 1), size) == Extend(HeadOf(Chunks(input, i), size), input[i].bytes, size)
  {
    hide Extend;
    var cs := Chunks(input, i + 1);
    assert cs[..i] == Chunks(input, i);
  }

  lemma NoChunks(input: seq<Read>)
    ensures Chunks(input, 0) == []
  {
  }

  lemma TroubleEnds(input: seq<Read>, total: nat, cap: nat, faults: Faults)
    ensures Trouble(input, |input|, total, cap, faults) == None
  {
  }

  lemma TroubleStep(input: seq<Read>, i: nat, total: nat, cap: nat, faults: Faults)
    requires i < |input|
    ensures
      Trouble(input, i, total, cap, faults) ==
        if input[i].Broken? then Some(Offline)
        else if total + |input[i].bytes| > cap then Some(TooLarge)
        else if faults.write == Some(i) then Some(WriteCode(faults.full))
        else Trouble(input, i + 1, total + |input[i].bytes|, cap, faults)
  {
  }

  lemma Nothing(size: HeicSize)
    ensures Flat([]) == [] && HeadOf([], size) == [] && HeadWindow([], size) == HEAD_WINDOW
  {
  }

  lemma TmpIsNoContent(root: string, name: string, digest: string, ext: string)
    ensures TmpPath(root, name) != ContentPath(root, digest, ext)
  {
    var n := |root|;
    var c := ContentPath(root, digest, ext);
    assert c[..n + 2] == (root + "/sha256/")[..n + 2];
    assert c[n + 1] == c[..n + 2][n + 1] == 's';
    assert TmpPath(root, name)[n + 1] == 't';
  }

  // --- The store ------------------------------------------------------------------------

  class Cache {
    const root: string
    var files: map<string, Bytes>

    constructor (root: string, files: map<string, Bytes>)
      ensures this.root == root && this.files == files
    {
      this.root := root;
      this.files := files;
    }

    /** `hashes_to`: a whole pass of SHA-256 over the file, in whatever pieces the input come. */
    method HashesTo(path: string, digest: string, readFails: bool) returns (ok: bool)
      ensures ok <==> Holds(files, path, digest) && !readFails
    {
      hide Hash, HexText, Represents, Hasher.Valid;
      if path !in files {
        return false;
      }
      var content := files[path];
      var hasher := new Hasher();
      var at := 0;
      while at < |content|
        invariant at <= |content| && hasher.Valid() && fresh(hasher) && fresh(hasher.state)
        invariant hasher.fed == content[..at] && files == old(files)
      {
        var read :| 0 < read <= |content| - at && read <= WIDE_WINDOW;
        hasher.Update(content[at..at + read]);
        assert content[..at] + content[at..at + read] == content[..at + read];
        at := at + read;
      }
      if readFails {
        return false;
      }
      assert content[..|content|] == content;
      var hex := hasher.Hex();
      ok := hex == digest;
    }

    /** `Part::create`: up to eight names, each of which must be new. */
    method CreatePart(names: seq<string>, fault: Option<nat>) returns (part: Option<string>)
      modifies this
      ensures part == PartName(old(files), root, names, 0, fault)
      ensures part.Some? ==> part.value !in old(files) && files == old(files)[part.value := []]
      ensures part.Some? ==> exists n :: part.value == TmpPath(root, n)
      ensures part.None? ==> files == old(files)
    {
      for i := 0 to |names|
        invariant files == old(files)
        invariant PartName(files, root, names, i, fault) == PartName(old(files), root, names, 0, fault)
      {
        if fault == Some(i) {
          return None;
        }
        var path := TmpPath(root, names[i]);
        if path !in files {
          files := files[path := []];
          return Some(path);
        }
      }
      part := None;
    }

    /** `Part::discard`. */
    method Discard(part: string, unlinkFails: bool)
      requires part in files
      modifies this
      ensures files == if unlinkFails then old(files) else old(files) - {part}
    {
      if !unlinkFails {
        files := files - {part};
      }
    }

    /** The read loop: count, cap, hash, keep the head, write. */
    method Receive(part: string, input: seq<Read>, cap: nat, size: HeicSize, faults: Faults)
      returns (code: Option<Code>, digest: string, head: Bytes, bytes: nat)
      requires part in files && files[part] == []
      modifies this
      ensures code == Trouble(input, 0, 0, cap, faults)
      ensures part in files && files == old(files)[part := files[part]]
      ensures code.None? ==> files[part] == Flat(Chunks(input, |input|)) && bytes == |files[part]|
      ensures code.None? ==> head == HeadOf(Chunks(input, |input|), size) && digest == Named(files[part])
    {
      hide Hash, HexText, HeadWindow, Flat, HeadOf, Represents, Trouble, Chunks, Extend, Hasher.Valid;
      code, digest, head, bytes := None, "", [], 0;
      var hasher := new Hasher();
      var window := HEAD_WINDOW;
      Nothing(size);
      NoChunks(input);
      for i := 0 to |input|
        invariant hasher.Valid() && fresh(hasher) && fresh(hasher.state)
        invariant part in files && files == old(files)[part := files[part]]
        invariant Trouble(input, i, bytes, cap, faults) == Trouble(input, 0, 0, cap, faults)
        invariant hasher.fed == files[part] == Flat(Chunks(input, i)) && bytes == |files[part]|
        invariant head == HeadOf(Chunks(input, i), size) && window == HeadWindow(head, size)
      {
        TroubleStep(input, i, bytes, cap, faults);
        if input[i].Broken? {
          code := Some(Offline);
          return;
        }
        var chunk := input[i].bytes;
        OneMoreRead(input, i, size);
        bytes := bytes + |chunk|;
        if bytes > cap {
          code := Some(TooLarge);
          return;
        }
        hasher.Update(chunk);
        head, window := Take(head, window, chunk, size);
        if faults.write == Some(i) {
          code := Some(if faults.full then Enospc else CacheReadonly);
          return;
        }
        files := files[part := files[part] + chunk];
      }
      TroubleEnds(input, bytes, cap, faults);
      digest := hasher.Hex();
    }

    /** `store`: everything from the connection to the rename. */
    method Store(input: seq<Read>, names: seq<string>, cap: nat, size: HeicSize, faults: Faults) returns (r: Outcome)
      modifies this
      ensures r == Expected(old(files), root, input, names, cap, size, faults)
      ensures StoreLeaves(old(files), files, root, input, names, faults, r)
      ensures r.Done? ==> Holds(files, r.stored.path, r.stored.digest)
    {
      hide Trouble, PartName, Flat, HeadOf, Chunks, Hash, HexText, ContentPath, Sniffed;
      if faults.dirs {
        return Failed(CacheUnwritable);
      }
      if faults.connect {
        return Failed(Offline);
      }
      var part := CreatePart(names, faults.create);
      if part.None? {
        return Failed(CacheUnwritable);
      }
      var code, digest, head, bytes := Receive(part.value, input, cap, size, faults);
      if code.Some? {
        Discard(part.value, faults.unlink);
        return Failed(code.value);
      }
      if faults.flush {
        Discard(part.value, faults.unlink);
        return Failed(if faults.full then Enospc else CacheReadonly);
      }
      var verdict := SniffHead(head, size);
      if !verdict.Measured? {
        Discard(part.value, faults.unlink);
        return Failed(NoImage);
      }
      r := Place(part.value, digest, bytes, verdict.header, faults, old(files));
    }

    /** The end of `store`: a hit, or the directory and the rename. */
    method Place(part: string, digest: string, bytes: nat, header: Header, faults: Faults,
                 ghost before: map<string, Bytes>)
      returns (r: Outcome)
      requires part in files && part !in before && files == before[part := files[part]]
      requires exists n :: part == TmpPath(root, n)
      requires digest == Named(files[part]) && bytes == |files[part]|
      modifies this
      ensures r == Placed(before, root, old(files)[part], Measured(header), faults)
      ensures Leaves(before, files, part, r, old(files)[part], faults.unlink)
      ensures r.Done? ==> Holds(files, r.stored.path, r.stored.digest)
    {
      hide Hash, HexText, ContentPath;
      var path := ContentPath(root, digest, header.ext);
      assert path != part by {
        var n :| part == TmpPath(root, n);
        TmpIsNoContent(root, n, digest, header.ext);
      }
      var hit := HashesTo(path, digest, faults.reread);
      if hit {
        Discard(part, faults.unlink);
        return Done(Stored(digest, path, bytes, header, true));
      }
      if faults.parent || faults.rename {
        Discard(part, faults.unlink);
        return Failed(CacheUnwritable);
      }
      files := (files - {part})[path := files[part]];
      r := Done(Stored(digest, path, bytes, header, false));
    }

    /**
     `fill` for a candidate that is copied: the held file when its bytes still hash to its name, a store
     otherwise. Whatever the file system holds when it starts, the path it returns holds bytes that hash
     to the digest it returns.
     */
    method Fill(held: Option<(string, string)>, minWidth: nat, minHeight: nat, input: seq<Read>, names: seq<string>,
                cap: nat, size: HeicSize, faults: Faults)
      returns (r: Filled)
      modifies this
      ensures r.Cached? || r.Fresh? ==> Holds(files, r.path, r.digest)
      ensures r.Cached? <==> HeldHolds(old(files), root, held, faults.reread)
      ensures
        r.Cached? ==>
          files == old(files) && r.digest == held.value.0 && r.path == ContentPath(root, r.digest, held.value.1)
      ensures
        !r.Cached? ==>
          var stored := Expected(old(files), root, input, names, cap, size, faults);
          r == Admit(stored, minWidth, minHeight) && StoreLeaves(old(files), files, root, input, names, faults, stored)
    {
      hide Expected, Hash, HexText, ContentPath, StoreLeaves;
      if held.Some? {
        var path := ContentPath(root, held.value.0, held.value.1);
        var ok := HashesTo(path, held.value.0, faults.reread);
        if ok {
          return Cached(held.value.0, path);
        }
      }
      var stored := Store(input, names, cap, size, faults);
      match stored {
        case Failed(code) => r := Refused(code);
        case Done(st) =>
          if st.header.width < minWidth || st.header.height < minHeight {
            return UnderFloor;
          }
          r := Fresh(st.digest, st.path, st.hit);
      }
    }
  }

  datatype Filled =
    | Cached(digest: string, path: string)
    | Fresh(digest: string, path: string, hit: bool)
    | UnderFloor
    | Refused(code: Code)

  predicate HeldHolds(files: map<string, Bytes>, root: string, held: Option<(string, string)>, rereadFails: bool)
  {
    held.Some? && Holds(files, ContentPath(root, held.value.0, held.value.1), held.value.0) && !rereadFails
  }

  /** A stored picture must not be smaller than the floor. */
  function Admit(o: Outcome, minWidth: nat, minHeight: nat): Filled
  {
    match o
    case Failed(code) => Refused(code)
    case Done(st) =>
      if st.header.width < minWidth || st.header.height < minHeight then UnderFloor
      else Fresh(st.digest, st.path, st.hit)
  }

  // --- Nothing but the stream counts ------------------------------------------------------

  /** Reads that all succeed and deliver a stream. */
  predicate Delivers(input: seq<Read>, s: Bytes)
  {
    (forall i :: 0 <= i < |input| ==> input[i].Chunk?) && Reads(Chunks(input, |input|), s)
  }

  /** No failure but those of the last step. */
  predicate Quiet(files: map<string, Bytes>, root: string, names: seq<string>, faults: Faults)
  {
    && !faults.dirs && !faults.connect && !faults.flush && faults.write.None?
    && PartName(files, root, names, 0, faults.create).Some?
  }

  /** What a store would make of a stream that came in one piece and was sniffed to the end of its window. */
  function Ideal(files: map<string, Bytes>, root: string, s: Bytes, cap: nat, size: HeicSize, faults: Faults): Outcome
  {
    if |s| > cap then Failed(TooLarge) else Placed(files, root, s, Sniffed(Window(s), size), faults)
  }

  lemma {:induction false} FlatGrows(input: seq<Read>, i: nat, n: nat)
    requires i <= n <= |input|
    ensures |Flat(Chunks(input, i))| <= |Flat(Chunks(input, n))|
    decreases n
  {
    hide Flat;
    if i < n {
      FlatGrows(input, i, n - 1);
      FlatStep(input, n - 1);
    }
  }

  lemma FlatStep(input: seq<Read>, i: nat)
    requires i < |input|
    ensures |Flat(Chunks(input, i + 1))| == |Flat(Chunks(input, i))| + |Chunks(input, i + 1)[i]|
  {
    var cs := Chunks(input, i + 1);
    assert cs[..i] == Chunks(input, i);
  }

  /** With no read or write error, the loop fails exactly when the stream is over the cap. */
  lemma {:induction false} OnlyTheCap(input: seq<Read>, i: nat, cap: nat, faults: Faults)
    requires i <= |input| && faults.write.None? && forall j :: 0 <= j < |input| ==> input[j].Chunk?
    requires |Flat(Chunks(input, i))| <= cap
    ensures
      Trouble(input, i, |Flat(Chunks(input, i))|, cap, faults)
      == if |Flat(Chunks(input, |input|))| > cap then Some(TooLarge) else None
    decreases |input| - i
  {
    hide Flat;
    if i < |input| {
      FlatStep(input, i);
      FlatGrows(input, i + 1, |input|);
      if |Flat(Chunks(input, i + 1))| <= cap {
        OnlyTheCap(input, i + 1, cap, faults);
      }
    }
  }

  /** The outcome of any reads that deliver a stream, in terms of the stream and the head that was kept. */
  lemma ExpectedOf(files: map<string, Bytes>, root: string, input: seq<Read>, s: Bytes, names: seq<string>, cap: nat,
                   size: HeicSize, faults: Faults)
    requires Delivers(input, s) && Quiet(files, root, names, faults)
    ensures
      Expected(files, root, input, names, cap, size, faults) ==
        if |s| > cap then Failed(TooLarge)
        else Placed(files, root, s, Sniffed(HeadOf(Chunks(input, |input|), size), size), faults)
  {
    hide Trouble, Placed, PartName, Chunks, Sniffed, HeadOf, Flat;
    assert |Flat(Chunks(input, 0))| == 0 by { NoChunks(input); Nothing(size); }
    OnlyTheCap(input, 0, cap, faults);
  }

  lemma PlacedTellsApart(files: map<string, Bytes>, root: string, s: Bytes, v: Verdict, faults: Faults)
    ensures v.Measured? <==> Placed(files, root, s, v, faults) != Failed(NoImage)
  {
    hide Hash, HexText, ContentPath;
  }

  function Wrapped(cs: seq<Bytes>): (input: seq<Read>)
    ensures |input| == |cs|
  {
    seq(|cs|, i requires 0 <= i < |cs| => Chunk(cs[i]))
  }

  /**
   Main result: for a stream that is no HEIC, with no read or write error, what a store returns depends on
   the bytes and not on how the reads cut them - `TooLarge` exactly over the cap, the digest of the whole
   stream, the verdict on its first 65536 bytes - exactly when the stream is over the cap or its frame
   header is not a short one.
   */
  lemma OutcomeIsTheStreams(files: map<string, Bytes>, root: string, s: Bytes, names: seq<string>, cap: nat,
                            size: HeicSize, faults: Faults)
    requires !IsHeic(s) && Quiet(files, root, names, faults)
    ensures
      (forall input :: Delivers(input, s) ==>
         Expected(files, root, input, names, cap, size, faults) == Ideal(files, root, s, cap, size, faults))
      <==> |s| > cap || !ShortFrame(Window(s))
  {
    hide Expected, Placed, Sniffed, HeadOf, ShortFrame, IsHeic, Quiet, Reads, Window;
    forall input | Delivers(input, s) && (|s| > cap || !ShortFrame(Window(s)))
      ensures Expected(files, root, input, names, cap, size, faults) == Ideal(files, root, s, cap, size, faults)
    {
      ExpectedOf(files, root, input, s, names, cap, size, faults);
      if |s| <= cap {
        ReadsDoNotMatter(s, size);
        assert Reads(Chunks(input, |input|), s);
      }
    }
    if |s| <= cap && ShortFrame(Window(s)) {
      MisjudgedReads(files, root, s, names, cap, size, faults);
    }
  }

  lemma MisjudgedReads(files: map<string, Bytes>, root: string, s: Bytes, names: seq<string>, cap: nat,
                       size: HeicSize, faults: Faults)
    requires !IsHeic(s) && Quiet(files, root, names, faults) && |s| <= cap && ShortFrame(Window(s))
    ensures
      exists input :: Delivers(input, s)
        && Expected(files, root, input, names, cap, size, faults) != Ideal(files, root, s, cap, size, faults)
  {
    hide Expected, Placed, Sniffed, HeadOf, ShortFrame, IsHeic, Quiet, Reads, Window, Pieces, Misread;
    ShortFrameIsMisread(Window(s));
    var m :| HEAD_WINDOW <= m < |Window(s)| && Misread(Window(s), m);
    assert m <= |s| by { WindowLength(s); }
    CutIsMisjudged(s, m, size);
    var cs := Pieces(s[..m]) + Pieces(s[m..]);
    var input := Wrapped(cs);
    assert Chunks(input, |input|) == cs;
    assert Delivers(input, s);
    ExpectedOf(files, root, input, s, names, cap, size, faults);
    PlacedTellsApart(files, root, s, NotAnImage, faults);
    PlacedTellsApart(files, root, s, Sniffed(Window(s), size), faults);
  }

  lemma WindowLength(s: Bytes)
    ensures |Window(s)| <= |s|
  {
  }

  // --- What is left behind ----------------------------------------------------------------

  /** A store that does not succeed changes nothing under `sha256/`, even if its part file is stuck. */
  lemma FailureLeavesImagesAlone(root: string, before: map<string, Bytes>, after: map<string, Bytes>, name: string,
                                 r: Outcome, s: Bytes, stuck: bool, path: string)
    requires r.Failed? && Leaves(before, after, TmpPath(root, name), r, s, stuck)
    requires ImagesDir(root) <= path
    ensures path in after <==> path in before
    ensures path in before ==> after[path] == before[path]
    ensures !stuck ==> after == before
  {
    var n := |root|;
    assert path[n + 1] == path[..n + 8][n + 1] == ImagesDir(root)[n + 1] == 's';
    assert TmpPath(root, name)[n + 1] == 't';
  }

  lemma {:induction false} PartIsInTmp(files: map<string, Bytes>, root: string, names: seq<string>, i: nat,
                                       fault: Option<nat>)
    requires i <= |names|
    ensures
      var part := PartName(files, root, names, i, fault);
      part.Some? ==> part.value !in files && exists name :: part.value == TmpPath(root, name)
    decreases |names| - i
  {
    hide TmpPath;
    if i < |names| { PartIsInTmp(files, root, names, i + 1, fault); }
  }

  /** The first name that is not taken, if nothing fails before it, is the part file, next to `sha256/`. */
  lemma {:induction false} FirstFreeName(files: map<string, Bytes>, root: string, names: seq<string>, i: nat, j: nat,
                                         fault: Option<nat>)
    requires i <= j < |names| && root + "/tmp/" + names[j] !in files
    requires forall k :: i <= k < j ==> root + "/tmp/" + names[k] in files
    requires fault.Some? ==> fault.value < i || j < fault.value
    ensures PartName(files, root, names, i, fault) == Some(root + "/tmp/" + names[j])
    decreases j - i
  {
    if i < j { FirstFreeName(files, root, names, i + 1, j, fault); }
  }

  /** Main result: a refused candidate changes nothing under `sha256/`, whatever failed and whatever is stuck. */
  lemma RefusalLeavesImagesAlone(before: map<string, Bytes>, after: map<string, Bytes>, root: string,
                                 input: seq<Read>, names: seq<string>, faults: Faults, r: Outcome, path: string)
    requires StoreLeaves(before, after, root, input, names, faults, r) && r.Failed?
    requires ImagesDir(root) <= path
    ensures path in after <==> path in before
    ensures path in before ==> after[path] == before[path]
    ensures !faults.unlink ==> after == before
  {
    hide Leaves, TmpPath, Flat, Chunks;
    PartIsInTmp(before, root, names, 0, faults.create);
    var part := PartName(before, root, names, 0, faults.create);
    if !faults.dirs && !faults.connect && part.Some? {
      var name :| part.value == TmpPath(root, name);
      FailureLeavesImagesAlone(root, before, after, name, r, Flat(Chunks(input, |input|)), faults.unlink, path);
    }
  }

  /** Storing the same bytes again is a hit that adds nothing. */
  lemma SecondStoreIsAHit(root: string, before: map<string, Bytes>, after: map<string, Bytes>, name: string,
                          s: Bytes, v: Verdict, faults: Faults, again: Faults)
    requires Placed(before, root, s, v, faults).Done? && !again.reread
    requires Leaves(before, after, TmpPath(root, name), Placed(before, root, s, v, faults), s, faults.unlink)
    ensures
      var r := Placed(after, root, s, v, again);
      r.Done? && r.stored.hit && r.stored.path == Placed(before, root, s, v, faults).stored.path
  {
    hide Hash, HexText, ContentPath, TmpPath;
    TmpIsNoContent(root, name, Named(s), v.header.ext);
  }
}
