/**
 Content-addressed file names: `content_path` (crates/whirl-core/src/state.rs:716-723) and
 `digest_of` (crates/whirld/src/cache.rs:357-366).
 */
module CachePaths {
  import opened Basics

  predicate IsHex(c: char) { IsDigit(c) || 'a' <= c <= 'f' || 'A' <= c <= 'F' }

  /** A digest as the file names spell it: 64 hexadecimal digits. */
  predicate HexDigest(d: string)
  {
    |d| == 64 && forall i :: 0 <= i < |d| ==> IsHex(d[i])
  }

  predicate LowerHexDigest(d: string)
  {
    HexDigest(d) && forall i :: 0 <= i < |d| ==> !('A' <= d[i] <= 'F')
  }

  function ToLower(c: char): char
  {
    if 'A' <= c <= 'Z' then (c as int + 32) as char else c
  }

  function Lower(s: string): string
  {
    seq(|s|, i requires 0 <= i < |s| => ToLower(s[i]))
  }

  function ImagesDir(root: string): string { root + "/sha256/" }

  /** `content_path`: `sha256/aa/bb/<digest>.<ext>` under the cache root. */
  function ContentPath(root: string, digest: string, ext: string): string
  {
    ImagesDir(root)
    + (if |digest| >= 4 then digest[0..2] + "/" + digest[2..4] + "/" else "")
    + digest + "." + ext
  }

  /** Everything after the last slash. */
  function FileName(path: string): (name: string)
    ensures |name| <= |path|
  {
    if |path| == 0 then ""
    else if path[|path| - 1] == '/' then ""
    else FileName(path[..|path| - 1]) + [path[|path| - 1]]
  }

  /** Everything before the first dot. */
  function Stem(name: string): string
  {
    if |name| == 0 || name[0] == '.' then "" else [name[0]] + Stem(name[1..])
  }

  /** `digest_of`: the digest a file name carries, when it is one. */
  function DigestOf(path: string): Option<string>
  {
    var stem := Stem(FileName(path));
    if HexDigest(stem) then Some(Lower(stem)) else None
  }

  lemma {:induction false} FileNameAfterSlash(dir: string, name: string)
    requires '/' !in name
    ensures FileName(dir + "/" + name) == name
  {
    var path := dir + "/" + name;
    if |name| > 0 {
      var front := name[..|name| - 1];
      assert path[..|path| - 1] == dir + "/" + front;
      FileNameAfterSlash(dir, front);
    }
  }

  lemma {:induction false} StemBeforeDot(stem: string, rest: string)
    requires '.' !in stem
    ensures Stem(stem + "." + rest) == stem
  {
    if |stem| > 0 {
      assert (stem + "." + rest)[1..] == stem[1..] + "." + rest;
      StemBeforeDot(stem[1..], rest);
    }
  }

  /** The sweep recognises an index entry's own file by its name. */
  lemma DigestOfContentPath(root: string, digest: string, ext: string)
    requires HexDigest(digest) && '/' !in ext
    ensures DigestOf(ContentPath(root, digest, ext)) == Some(Lower(digest))
  {
    var name := digest + "." + ext;
    assert ContentPath(root, digest, ext)
        == (root + "/sha256/" + digest[0..2] + "/" + digest[2..4]) + "/" + name;
    FileNameAfterSlash(root + "/sha256/" + digest[0..2] + "/" + digest[2..4], name);
    assert forall c :: c in digest ==> IsHex(c);
    StemBeforeDot(digest, ext);
  }

  lemma LowerOfLower(digest: string)
    requires LowerHexDigest(digest)
    ensures Lower(digest) == digest
  {
  }

  /** Two index entries never claim the same file. */
  lemma ContentPathInjective(root: string, d: string, e: string, d': string, e': string)
    requires HexDigest(d) && HexDigest(d')
    requires ContentPath(root, d, e) == ContentPath(root, d', e')
    ensures d == d'
  {
    var head := |root| + 14;
    var p := ContentPath(root, d, e);
    assert p[head..head + 64] == d;
    assert p[head..head + 64] == d';
  }

  /** The two directories are the first two pairs of digits. */
  lemma ContentPathIs(root: string, first: string, second: string, others: string, ext: string)
    requires |first| == 2 == |second|
    ensures ContentPath(root, first + second + others, ext)
            == root + "/sha256/" + first + "/" + second + "/" + first + second + others + "." + ext
  {
    var digest := first + second + others;
    assert digest[0..2] == first && digest[2..4] == second;
    assert root + "/sha256/" + first + "/" + second + "/" + first + second + others + "." + ext
        == root + "/sha256/" + (first + "/" + second + "/") + digest + "." + ext;
  }

  // --- What a file name says --------------------------------------------------------------

  /** `low` is the character in lower case. */
  predicate IsLowered(c: char, low: char)
  {
    if c in "ABCDEF" then
      || (c == 'A' && low == 'a') || (c == 'B' && low == 'b') || (c == 'C' && low == 'c') || (c == 'D' && low == 'd')
      || (c == 'E' && low == 'e') || (c == 'F' && low == 'f')
    else low == c
  }

  lemma HexIs(c: char)
    ensures IsHex(c) <==> c in "0123456789abcdefABCDEF"
    ensures IsHex(c) ==> IsLowered(c, ToLower(c))
  {
  }

  /** A file name is a digest if and only if 64 hexadecimal digits stand before its first dot; the digest is in lower case. */
  lemma DigestIsRead(dir: string, stem: string, rest: string, d: string)
    requires '/' !in stem && '.' !in stem && '/' !in rest
    ensures DigestOf(dir + "/" + stem + "." + rest) == Some(d)
            <==> |stem| == 64 == |d| && forall i :: 0 <= i < 64 ==> stem[i] in "0123456789abcdefABCDEF" && IsLowered(stem[i], d[i])
  {
    var name := stem + "." + rest;
    assert dir + "/" + stem + "." + rest == dir + "/" + name;
    FileNameAfterSlash(dir, name);
    StemBeforeDot(stem, rest);
    hide FileName, Stem, HexDigest;
    DigestIsLowered(stem, d);
  }

  lemma DigestIsLowered(stem: string, d: string)
    ensures HexDigest(stem) && Lower(stem) == d
            <==> |stem| == 64 == |d| && forall i :: 0 <= i < 64 ==> stem[i] in "0123456789abcdefABCDEF" && IsLowered(stem[i], d[i])
  {
    forall c: char, low: char ensures IsHex(c) ==> (IsLowered(c, low) <==> low == ToLower(c)) { HexIs(c); }
    forall c: char ensures IsHex(c) <==> c in "0123456789abcdefABCDEF" { HexIs(c); }
    hide IsHex, ToLower, IsLowered;
    if |stem| == 64 == |d| && forall i :: 0 <= i < 64 ==> IsHex(stem[i]) && IsLowered(stem[i], d[i]) {
      assert forall i :: 0 <= i < 64 ==> Lower(stem)[i] == d[i];
    }
  }
}
