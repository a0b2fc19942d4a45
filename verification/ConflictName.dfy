/** Names of conflict files: how the daemon makes them and how the command line tool gets
    the original name back. */
module ConflictName {
  import opened Types
  import opened Text

  const MARK: string := ".conflict."

  // ------------------------------------------------------- stem and extension

  /** A name that is a proper path component; "", "." and ".." are not. */
  predicate IsFileName(name: string) {
    name != "" && name != "." && name != ".."
  }

  /** The text after the last dot, unless that dot is the first character. */
  function Extension(name: string): Option<string> {
    var k := LastIndexOf(name, '.');
    if IsFileName(name) && k > 0 then Some(name[k + 1..]) else None
  }

  function Stem(name: string): string {
    var k := LastIndexOf(name, '.');
    if IsFileName(name) && k > 0 then name[..k] else name
  }

  // ------------------------------------------------------------ make and parse

  /** `make_conflict_name`, given the timestamp and the content hash. */
  function Make(name: string, ts: string, hash: string): string {
    var base := Stem(name) + MARK + ts + "." + hash;
    match Extension(name)
    case Some(e) => base + "." + e
    case None => base
  }

  /** The text after the last dot, or all of it. */
  function LastSegment(s: string): string {
    s[LastIndexOf(s, '.') + 1..]
  }

  /** The original name that the command line tool reads out of a conflict file's name. */
  function Canonical(sibling: string): Option<string> {
    var k := Find(sibling, MARK);
    if k < 0 then None
    else
      var stem, ext := sibling[..k], LastSegment(sibling);
      Some(if ext == "" || EndsWith(stem, "." + ext) then stem else stem + "." + ext)
  }

  // ----------------------------------------------------------------- round trip

  predicate DotFree(s: string) { '.' !in s }

  /** What a caller can check before relying on the round trip. */
  ghost predicate Recoverable(name: string, hash: string) {
    match Extension(name)
    case Some(e) =>
      && e != "" && !EndsWith(Stem(name), "." + e)
      && !Contains(Stem(name), MARK) && !EndsWith(Stem(name), ".conflict")
    case None => name == "." + hash
  }

  lemma SegmentAfterLastDot(front: string, last: string)
    requires DotFree(last)
    ensures LastSegment(front + "." + last) == last
  {
    var s := front + "." + last;
    assert s[|front|] == '.';
    assert s[|front| + 1..] == last;
    forall l | |front| < l < |s| ensures s[l] != '.' { assert s[l] == last[l - |front| - 1]; }
    LastIndexUnique(s, '.', |front|);
  }

  /** In `stem + MARK + tail`, an occurrence before the inserted mark lies inside the stem or
      shares the mark's first dot. */
  lemma EarlyMark(stem: string, tail: string, k: nat)
    requires k < |stem| && OccursAt(stem + MARK + tail, MARK, k)
    ensures OccursAt(stem, MARK, k) || (k + 9 == |stem| && EndsWith(stem, ".conflict"))
  {
    var s := stem + MARK + tail;
    assert s[|stem|..|stem| + 10] == MARK;
    if k + 10 <= |stem| {
      assert stem[k..k + 10] == s[k..k + 10];
    } else {
      var shift := |stem| - k;
      assert MARK[shift] == s[k..k + 10][shift] == s[|stem|] == '.';
      assert shift == 9;
      assert stem[|stem| - 9..] == s[k..k + 9];
      assert s[k..k + 9] == s[k..k + 10][..9];
    }
  }

  lemma InsertedMark(stem: string, tail: string)
    ensures OccursAt(stem + MARK + tail, MARK, |stem|)
    ensures Contains(stem, MARK) ==> exists k: nat :: k < |stem| && OccursAt(stem + MARK + tail, MARK, k)
    ensures EndsWith(stem, ".conflict") ==> OccursAt(stem + MARK + tail, MARK, |stem| - 9)
  {
    var s := stem + MARK + tail;
    assert s[|stem|..|stem| + 10] == MARK;
    if Contains(stem, MARK) {
      var k: nat :| OccursAt(stem, MARK, k);
      assert s[k..k + 10] == stem[k..k + 10];
      assert OccursAt(s, MARK, k);
    }
    if EndsWith(stem, ".conflict") {
      var k := |stem| - 9;
      assert s[k..k + 10] == stem[k..] + ".";
      assert ".conflict" + "." == MARK;
    }
  }

  /** Where the parser cuts: at the end of the stem exactly when the stem neither contains
      the mark nor ends in its first part. */
  lemma CutPoint(stem: string, tail: string)
    ensures 0 <= Find(stem + MARK + tail, MARK) <= |stem|
    ensures Find(stem + MARK + tail, MARK) == |stem| <==> !Contains(stem, MARK) && !EndsWith(stem, ".conflict")
  {
    var s := stem + MARK + tail;
    InsertedMark(stem, tail);
    var k := Find(s, MARK);
    assert k <= |stem|;
    if k < |stem| { EarlyMark(stem, tail, k); }
  }

  lemma MadeName(name: string, ts: string, hash: string)
    ensures
      var tail := ts + "." + hash + (if Extension(name).Some? then "." + Extension(name).value else "");
      Make(name, ts, hash) == Stem(name) + MARK + tail
  {
  }

  lemma ExtensionSplits(name: string)
    ensures Extension(name).Some? ==> name == Stem(name) + "." + Extension(name).value && DotFree(Extension(name).value)
    ensures Extension(name).None? ==> Stem(name) == name
    ensures Extension(name).None? && IsFileName(name) ==> forall k :: 0 < k < |name| ==> name[k] != '.'
  {
    var k := LastIndexOf(name, '.');
    if Extension(name).Some? { assert name == name[..k] + [name[k]] + name[k + 1..]; }
  }

  /** With an extension. */
  lemma RoundTripExtension(name: string, ts: string, hash: string, e: string)
    requires Extension(name) == Some(e)
    ensures Canonical(Make(name, ts, hash)) == Some(name) <==> Recoverable(name, hash)
  {
    var stem := Stem(name);
    var sibling := Make(name, ts, hash);
    ExtensionSplits(name);
    MadeName(name, ts, hash);
    var tail := ts + "." + hash + ("." + e);
    CutPoint(stem, tail);
    var k := Find(sibling, MARK);
    SegmentAfterLastDot(stem + MARK + ts + "." + hash, e);
    assert sibling == stem + MARK + ts + "." + hash + "." + e;
    assert |sibling[..k]| == k;
    if k == |stem| {
      assert sibling[..k] == stem;
      assert |name| == |stem| + 1 + |e|;
    } else {
      assert |Canonical(sibling).value| < |name|;
    }
  }

  lemma ShortDotted(name: string, hash: string)
    requires IsFileName(name) && (forall k :: 0 < k < |name| ==> name[k] != '.')
    requires hash != "" && DotFree(hash)
    ensures EndsWith(name, "." + hash) <==> name == "." + hash
  {
    var suffix := "." + hash;
    if EndsWith(name, suffix) {
      assert name[|name| - |suffix|] == suffix[0] == '.';
      assert |name| == |suffix|;
    }
  }

  /** What the parser makes of a cut at `k` when the text ends in a dot-free `last`. */
  lemma CanonicalCut(sibling: string, k: nat, last: string)
    requires k == Find(sibling, MARK) && k <= |sibling| && LastSegment(sibling) == last && last != ""
    ensures Canonical(sibling) == Some(Completed(sibling[..k], last))
  {
  }

  function Completed(stem: string, ext: string): string {
    if EndsWith(stem, "." + ext) then stem else stem + "." + ext
  }

  lemma BareSibling(name: string, ts: string, hash: string)
    requires Extension(name).None? && hash != "" && DotFree(hash)
    ensures Make(name, ts, hash) == name + MARK + (ts + "." + hash) && LastSegment(Make(name, ts, hash)) == hash
  {
    ExtensionSplits(name);
    Regrouped(name, MARK, ts, ".", hash);
    SegmentAfterLastDot(name + MARK + ts, hash);
  }

  lemma Regrouped(a: string, b: string, c: string, d: string, e: string)
    ensures a + b + c + d + e == a + b + (c + d + e)
  {
  }

  lemma PrefixOfSum(a: string, b: string, c: string, k: nat)
    requires k <= |a|
    ensures (a + b + c)[..k] == a[..k]
  {
  }

  /** Wherever the parser cuts, it gets the name back only in the one case. */
  lemma BareCases(name: string, tail: string, hash: string, k: nat)
    requires Extension(name).None? && hash != "" && DotFree(hash)
    requires k <= |name| && k == Find(name + MARK + tail, MARK)
    ensures Completed(name[..k], hash) == name <==> name == "." + hash
  {
    if k == |name| {
      assert name[..k] == name;
      BareAtEnd(name, hash);
    } else {
      EarlyMark(name, tail, k);
      BareEarly(name, hash, k);
    }
  }

  /** Without an extension: the parser takes the hash for one. */
  lemma RoundTripBare(name: string, ts: string, hash: string)
    requires Extension(name).None? && hash != "" && DotFree(hash)
    ensures Canonical(Make(name, ts, hash)) == Some(name) <==> name == "." + hash
  {
    BareSibling(name, ts, hash);
    BareParses(name, ts + "." + hash, hash, Make(name, ts, hash));
  }

  lemma BareParses(name: string, tail: string, hash: string, sibling: string)
    requires Extension(name).None? && hash != "" && DotFree(hash)
    requires sibling == name + MARK + tail && LastSegment(sibling) == hash
    ensures Canonical(sibling) == Some(name) <==> name == "." + hash
  {
    CutPoint(name, tail);
    var k := Find(sibling, MARK);
    CanonicalCut(sibling, k, hash);
    PrefixOfSum(name, MARK, tail, k);
    BareCases(name, tail, hash, k);
  }

  lemma BareAtEnd(name: string, hash: string)
    requires Extension(name).None? && hash != "" && DotFree(hash)
    ensures Completed(name, hash) == name <==> name == "." + hash
  {
    ExtensionSplits(name);
    if IsFileName(name) {
      ShortDotted(name, hash);
    } else {
      assert !EndsWith(name, "." + hash) && name != "." + hash by {
        assert ("." + hash)[1] == hash[0];
      }
    }
  }

  lemma DotsOfMark(s: string, k: nat)
    requires OccursAt(s, MARK, k)
    ensures s[k] == '.' && s[k + 9] == '.'
  {
    assert s[k..k + 10][0] == s[k] && s[k..k + 10][9] == s[k + 9];
  }

  lemma BareEarly(name: string, hash: string, k: nat)
    requires Extension(name).None? && hash != "" && DotFree(hash) && k < |name|
    requires OccursAt(name, MARK, k) || (k + 9 == |name| && EndsWith(name, ".conflict"))
    ensures name == ".conflict" && k == 0
    ensures Completed(name[..k], hash) == name <==> name == "." + hash
  {
    ExtensionSplits(name);
    if OccursAt(name, MARK, k) {
      DotsOfMark(name, k);
    } else {
      assert name[k..][0] == '.' && name[k] == '.';
      assert name == name[k..];
    }
    assert name[..0] + "." + hash == "." + hash;
  }

  /** For every name, timestamp and hash: the parser recovers the original name exactly when
      the name has a non-empty extension that its stem does not already end in, and a stem
      that neither contains nor runs into the conflict mark; without an extension, only for
      the name made of a dot and the hash. */
  lemma RoundTrip(name: string, ts: string, hash: string)
    requires hash != "" && DotFree(hash)
    ensures Canonical(Make(name, ts, hash)) == Some(name) <==> Recoverable(name, hash)
  {
    match Extension(name)
    case Some(e) => RoundTripExtension(name, ts, hash, e);
    case None => RoundTripBare(name, ts, hash);
  }

  /** The tool looks up the wrong original for a name without extension. */
  lemma BareNameNotRecovered(ts: string)
    ensures Canonical(Make("Makefile", ts, "a3f2e1b9")) != Some("Makefile")
  {
    LastIndexUniqueNone("Makefile");
    RoundTripBare("Makefile", ts, "a3f2e1b9");
  }

  /** And for a stem that runs into the mark. */
  lemma MarkedStemNotRecovered(ts: string, hash: string)
    requires hash != "" && DotFree(hash)
    ensures Canonical(Make("a.conflict.txt", ts, hash)) != Some("a.conflict.txt")
  {
    var name := "a.conflict.txt";
    LastIndexUnique(name, '.', 10);
    assert Stem(name) == "a.conflict";
    assert EndsWith(Stem(name), ".conflict");
    RoundTrip(name, ts, hash);
  }

  lemma LastIndexUniqueNone(s: string)
    requires '.' !in s
    ensures LastIndexOf(s, '.') == -1
  {
  }

  /** The names that are made: the mark, the time and the hash go between the stem and the last
      extension, or behind a name that has no dot but a leading one. */
  lemma MadeSpelled(stem: string, ext: string, ts: string, hash: string)
    requires '.' !in ext
    ensures stem != "" && (stem != "." || ext != "") ==>
      Make(stem + "." + ext, ts, hash) == stem + ".conflict." + ts + "." + hash + "." + ext
    ensures Make(ext, ts, hash) == ext + ".conflict." + ts + "." + hash
    ensures Make("." + ext, ts, hash) == "." + ext + ".conflict." + ts + "." + hash
  {
    var name, hidden := stem + "." + ext, "." + ext;
    LastIndexSplits(stem, '.', ext);
    assert name[..|stem|] == stem && name[|stem| + 1..] == ext;
    LastIndexSplits("", '.', ext);
    assert "" + "." + ext == hidden;
    LastIndexUniqueNone(ext);
  }

  /** Two files whose names can be recovered never share a conflict name. */
  lemma MadeNamesApart(a: string, b: string, ts: string, hash: string, ts': string, hash': string)
    requires hash != "" && DotFree(hash) && hash' != "" && DotFree(hash')
    requires Recoverable(a, hash) && Recoverable(b, hash') && a != b
    ensures Make(a, ts, hash) != Make(b, ts', hash')
  {
    RoundTrip(a, ts, hash);
    RoundTrip(b, ts', hash');
  }

  // ------------------------------------------------------------ the remote path

  /** `conflict_remote_path`. */
  function RemotePath(path: string, conflictName: string): string {
    var k := LastIndexOf(path, '/');
    var parent := if k >= 0 then path[..k] else "";
    if parent == "" then CONFLICT_PREFIX + conflictName else CONFLICT_PREFIX + parent + "/" + conflictName
  }

  /** The conflict file never lands on the canonical path, and always in its namespace. */
  lemma RemotePathElsewhere(path: string, conflictName: string)
    requires '/' !in conflictName
    ensures RemotePath(path, conflictName) != path
    ensures StartsWith(RemotePath(path, conflictName), CONFLICT_PREFIX)
  {
    var k := LastIndexOf(path, '/');
    var parent := if k >= 0 then path[..k] else "";
    var dir := if parent == "" then CONFLICT_PREFIX[..|CONFLICT_PREFIX| - 1] else CONFLICT_PREFIX + parent;
    var r := RemotePath(path, conflictName);
    assert r == dir + "/" + conflictName;
    assert r[|dir|] == '/';
    forall l | |dir| < l < |r| ensures r[l] != '/' { assert r[l] == conflictName[l - |dir| - 1]; }
    LastIndexUnique(r, '/', |dir|);
    assert |dir| > k;
  }

  /** The directory of the original is kept below the namespace. */
  lemma RemotePathSpelled(dir: string, name: string, conflictName: string)
    requires '/' !in name
    ensures RemotePath(name, conflictName) == ".stratosync-conflicts/" + conflictName
    ensures RemotePath("/" + name, conflictName) == ".stratosync-conflicts/" + conflictName
    ensures dir != "" ==>
      RemotePath(dir + "/" + name, conflictName) == ".stratosync-conflicts/" + dir + "/" + conflictName
  {
    LastIndexSplits("", '/', name);
    assert "" + "/" + name == "/" + name;
    LastIndexSplits(dir, '/', name);
    assert (dir + "/" + name)[..|dir|] == dir;
  }

  /** Conflict files of different directories, or with different names, have different paths. */
  lemma RemotePathsApart(dir: string, name: string, conflict: string, dir': string, name': string, conflict': string)
    requires dir != "" && dir' != ""
    requires '/' !in name && '/' !in name' && '/' !in conflict && '/' !in conflict'
    ensures RemotePath(dir + "/" + name, conflict) == RemotePath(dir' + "/" + name', conflict')
       <==> dir == dir' && conflict == conflict'
    ensures RemotePath(dir + "/" + name, conflict) != RemotePath(name', conflict')
  {
    RemotePathSpelled(dir, name, conflict);
    RemotePathSpelled(dir', name', conflict');
    assert ".stratosync-conflicts" + "/" == ".stratosync-conflicts/";
    BelowApart(".stratosync-conflicts", dir, conflict, dir', conflict');
  }

  lemma BelowApart(p: string, dir: string, last: string, dir': string, last': string)
    requires dir != "" && dir' != "" && '/' !in last && '/' !in last'
    ensures p + "/" + dir + "/" + last == p + "/" + dir' + "/" + last' <==> dir == dir' && last == last'
    ensures p + "/" + dir + "/" + last != p + "/" + last'
  {
    LastIndexSplits(p + "/" + dir, '/', last);
    LastIndexSplits(p + "/" + dir', '/', last');
    LastIndexSplits(p, '/', last');
    CutsBack(p + "/", dir, last);
    CutsBack(p + "/", dir', last');
  }

  lemma CutsBack(front: string, dir: string, last: string)
    ensures (front + dir + "/" + last)[|front|..][..|dir|] == dir
    ensures (front + dir + "/" + last)[|front + dir| + 1..] == last
  {
  }

  /** The name of a conflict file is a single path component. */
  lemma MadeNameHasNoSlash(name: string, ts: string, hash: string)
    requires '/' !in name && '/' !in ts && '/' !in hash
    ensures '/' !in Make(name, ts, hash)
  {
    var base := Stem(name) + MARK + ts + "." + hash;
    assert '/' !in Stem(name) && '/' !in MARK && '/' !in ".";
    NoSlashIn(Stem(name), MARK);
    NoSlashIn(Stem(name) + MARK, ts);
    NoSlashIn(Stem(name) + MARK + ts, ".");
    NoSlashIn(Stem(name) + MARK + ts + ".", hash);
    match Extension(name)
    case None =>
    case Some(e) =>
      assert '/' !in e;
      NoSlashIn(base, ".");
      NoSlashIn(base + ".", e);
  }

  lemma NoSlashIn(a: string, b: string)
    requires '/' !in a && '/' !in b
    ensures '/' !in a + b
  {
  }
}
