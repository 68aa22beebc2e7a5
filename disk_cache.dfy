/**
  The optimiser's disk cache. Each request fingerprint owns a directory; each optimised image is
  a file named `${maxAge}.${expireAt}.${etag}.${extension}` in it. A lookup serves the first
  entry that has not expired and deletes the expired ones it passes on the way. The file system
  is an in-memory store: a map from directory to its entry names in `readdir` order, and the
  bytes of every entry.
*/
module DiskCache {
  import opened Wrappers
  import opened JsText
  import Mime
  import Fingerprint
  import CacheControl

  // ---------------------------------------------------------------------------------------------
  // fileExists

  /** What `promises.stat` reports for a path: its kind, or the error it fails with. */
  datatype Probe = Found(isFile: bool, isDirectory: bool) | Failed(code: string)

  /** The `type` argument of `fileExists`. */
  datatype Kind = FileKind | DirectoryKind | AnyKind

  /**
    `fileExists(path, type)`: a missing path or an over-long name (ENOENT, ENAMETOOLONG) is
    "does not exist"; any other failure is re-thrown (`Failure` carries the error code).
  */
  function FileExists(probe: Probe, kind: Kind): (r: Result<bool, string>)
    ensures r.Failure? <==> probe.Failed? && probe.code != "ENOENT" && probe.code != "ENAMETOOLONG"
    ensures r.Failure? ==> r.error == probe.code
    ensures r == Success(true) <==>
      probe.Found? && (kind == FileKind ==> probe.isFile) && (kind == DirectoryKind ==> probe.isDirectory)
  {
    match probe
    case Failed(code) =>
      if code == "ENOENT" || code == "ENAMETOOLONG" then Success(false) else Failure(code)
    case Found(isFile, isDirectory) =>
      Success(match kind
        case FileKind => isFile
        case DirectoryKind => isDirectory
        case AnyKind => true)
  }

  // ---------------------------------------------------------------------------------------------
  // Entry names

  /** The file name `writeToCacheDir` gives an entry. */
  function EntryName(maxAge: int, expireAt: int, etag: string, extension: string): string {
    IntToString(maxAge) + "." + IntToString(expireAt) + "." + etag + "." + extension
  }

  /** The four fields a lookup reads back from a file name; NaN numbers are `None`. */
  datatype Entry = Entry(maxAge: Option<int>, expireAt: Option<int>, etag: string, contentType: string)

  /** Field `i` of `file.split('.')` destructured: `None` is `undefined` (too few fields). */
  function Field(name: string, i: nat): Option<string> {
    var parts := Split(name, '.');
    if i < |parts| then Some(parts[i]) else None
  }

  /** `Number(field)`: `Number(undefined)` is NaN. */
  function NumberOf(field: Option<string>): Option<int> {
    match field
    case Some(text) => JsNumber(text)
    case None => None
  }

  /** The expiry time an entry name announces. */
  function EntryExpiry(name: string): Option<int> {
    NumberOf(Field(name, 1))
  }

  /** The lookup's reading of an entry name: max-age, expiry, entity tag and content type. */
  function ParseEntryName(name: string, db: Mime.MimeDb): Entry {
    Entry(NumberOf(Field(name, 0)), EntryExpiry(name), Field(name, 2).GetOr(""),
          match Field(name, 3)
          case Some(extension) => Mime.GetContentType(db, extension)
          case None => "")
  }

  /** `now < expireAt`; a comparison with NaN is false, so an unreadable expiry is stale. */
  predicate IsFreshName(name: string, now: int) {
    EntryExpiry(name).Some? && now < EntryExpiry(name).value
  }

  /** The written name reads back its expiry, whatever the tag and extension hold. */
  lemma EntryExpiryOfName(maxAge: int, expireAt: int, etag: string, extension: string)
    ensures EntryExpiry(EntryName(maxAge, expireAt, etag, extension)) == Some(expireAt)
  {
    var a := IntToString(maxAge);
    var b := IntToString(expireAt);
    var rest := etag + "." + extension;
    IntToStringNoSeparators(maxAge, '.');
    IntToStringNoSeparators(expireAt, '.');
    assert EntryName(maxAge, expireAt, etag, extension) == a + ['.'] + (b + ['.'] + rest);
    SplitFirst(a, '.', b + ['.'] + rest);
    SplitFirst(b, '.', rest);
    JsNumberOfIntToString(expireAt);
  }

  /**
    Splitting the name on `.` recovers the four fields when the tag has no `.` and the content
    type round-trips through its extension.
  */
  lemma EntryNameRoundTrip(maxAge: int, expireAt: int, etag: string, contentType: string, db: Mime.MimeDb)
    requires '.' !in etag && Mime.RoundTrips(db, contentType)
    ensures ParseEntryName(EntryName(maxAge, expireAt, etag, Mime.ExtensionText(db, contentType)), db) ==
      Entry(Some(maxAge), Some(expireAt), etag, contentType)
  {
    var a := IntToString(maxAge);
    var b := IntToString(expireAt);
    var extension := Mime.ExtensionText(db, contentType);
    var name := EntryName(maxAge, expireAt, etag, extension);
    IntToStringNoSeparators(maxAge, '.');
    IntToStringNoSeparators(expireAt, '.');
    Mime.ContentTypeOfExtensionText(db, contentType);
    assert name == a + ['.'] + (b + ['.'] + (etag + ['.'] + extension));
    SplitNoSeparator(extension, '.');
    SplitFirst(etag, '.', extension);
    SplitFirst(b, '.', etag + ['.'] + extension);
    SplitFirst(a, '.', b + ['.'] + (etag + ['.'] + extension));
    assert Split(name, '.') == [a, b, etag, extension];
    JsNumberOfIntToString(maxAge);
    JsNumberOfIntToString(expireAt);
  }

  /**
    An entry written for a body reads back its max-age, expiry, content type and, as its tag,
    the body's own fingerprint: a cache hit sends the same `ETag` as the first response did.
  */
  lemma WrittenEntryReadsBack(maxAge: int, expireAt: int, sha: Fingerprint.Digest, buffer: seq<byte>,
                              contentType: string, db: Mime.MimeDb)
    requires Mime.RoundTrips(db, contentType)
    ensures var name := EntryName(maxAge, expireAt, Fingerprint.ContentHash(sha, buffer), Mime.ExtensionText(db, contentType));
      ParseEntryName(name, db) == Entry(Some(maxAge), Some(expireAt), Fingerprint.ContentHash(sha, buffer), contentType)
  {
    Fingerprint.FingerprintIsFileSafe(sha, [Fingerprint.Data(buffer)]);
    EntryNameRoundTrip(maxAge, expireAt, Fingerprint.ContentHash(sha, buffer), contentType, db);
  }

  /**
    An entry written at `writtenAt` is served exactly while less than
    `max(maxAge, minimumCacheTTL)` seconds have passed: never for less than the minimum TTL.
  */
  lemma ServedUntilExpiry(maxAge: int, minimumCacheTTL: int, writtenAt: int, now: int,
                          etag: string, extension: string)
    ensures var expireAt := CacheControl.ExpireAt(maxAge, minimumCacheTTL, writtenAt);
      IsFreshName(EntryName(maxAge, expireAt, etag, extension), now) <==>
      now - writtenAt < (if maxAge > minimumCacheTTL then maxAge else minimumCacheTTL) * 1000
    ensures now - writtenAt < minimumCacheTTL * 1000 ==>
      IsFreshName(EntryName(maxAge, CacheControl.ExpireAt(maxAge, minimumCacheTTL, writtenAt), etag, extension), now)
  {
    EntryExpiryOfName(maxAge, CacheControl.ExpireAt(maxAge, minimumCacheTTL, writtenAt), etag, extension);
  }

  // ---------------------------------------------------------------------------------------------
  // Directory contents

  /** No name occurs twice (a directory lists each file once). */
  predicate Distinct(names: seq<string>) {
    forall i, j :: 0 <= i < j < |names| ==> names[i] != names[j]
  }

  /** The names left once `name` is unlinked. */
  function Remove(names: seq<string>, name: string): (r: seq<string>)
    ensures forall x :: x in r <==> x in names && x != name
  {
    if names == [] then []
    else (if names[0] == name then [] else [names[0]]) + Remove(names[1..], name)
  }

  /** The names after `name` is written: a new name is listed last, an existing one stays put. */
  function AddName(names: seq<string>, name: string): (r: seq<string>)
    ensures name in r
  {
    if name in names then names else names + [name]
  }

  lemma {:induction false} RemoveAbsent(names: seq<string>, name: string)
    requires name !in names
    ensures Remove(names, name) == names
  {
    if names != [] {
      RemoveAbsent(names[1..], name);
      assert [names[0]] + names[1..] == names;
    }
  }

  lemma {:induction false} RemoveDistinct(names: seq<string>, name: string)
    requires Distinct(names)
    ensures Distinct(Remove(names, name))
  {
    if names != [] {
      RemoveDistinct(names[1..], name);
      var rest := Remove(names[1..], name);
      assert names[0] !in rest by {
        assert names[0] !in names[1..];
      }
    }
  }

  /** Unlinking the first name of a distinct listing leaves the rest in order. */
  lemma RemoveHead(names: seq<string>)
    requires Distinct(names) && |names| > 0
    ensures Remove(names, names[0]) == names[1..]
  {
    assert names[0] !in names[1..];
    RemoveAbsent(names[1..], names[0]);
  }

  lemma AddNameDistinct(names: seq<string>, name: string)
    requires Distinct(names)
    ensures Distinct(AddName(names, name))
  {
  }

  /** The contents left once the names `gone` of directory `dir` are unlinked. */
  function Unlinked(contents: map<(string, string), seq<byte>>, dir: string, gone: seq<string>)
    : map<(string, string), seq<byte>>
  {
    if gone == [] then contents
    else Unlinked(contents, dir, gone[..|gone| - 1]) - {(dir, gone[|gone| - 1])}
  }

  /** The cache directories, keyed by request fingerprint. */
  class CacheStore {
    /** The entry names of each directory, in `readdir` order. */
    var dirs: map<string, seq<string>>
    /** The bytes of each entry, by directory and name. */
    var contents: map<(string, string), seq<byte>>
    /** Directories whose `stat` fails with an error other than a missing path (EACCES, EIO, ...). */
    var statErrors: map<string, string>

    ghost predicate Valid()
      reads this
    {
      forall dir :: dir in dirs ==> Distinct(dirs[dir])
    }

    constructor ()
      ensures dirs == map[] && contents == map[] && statErrors == map[]
      ensures Valid()
    {
      dirs := map[];
      contents := map[];
      statErrors := map[];
    }

    /** `promises.stat(dir)`. */
    function Probe(dir: string): Probe
      reads this
    {
      if dir in statErrors then Failed(statErrors[dir])
      else if dir in dirs then Found(false, true)
      else Failed("ENOENT")
    }

    /** `promises.unlink(join(dir, name))`. */
    method Unlink(dir: string, name: string)
      requires Valid() && dir in dirs
      modifies this
      ensures Valid()
      ensures dirs == old(dirs)[dir := Remove(old(dirs)[dir], name)]
      ensures contents == old(contents) - {(dir, name)}
      ensures statErrors == old(statErrors)
    {
      RemoveDistinct(dirs[dir], name);
      dirs := dirs[dir := Remove(dirs[dir], name)];
      contents := contents - {(dir, name)};
    }

    /** `promises.mkdir(dir, { recursive: true })` followed by `promises.writeFile(join(dir, name), bytes)`. */
    method Write(dir: string, name: string, bytes: seq<byte>)
      requires Valid()
      modifies this
      ensures Valid()
      ensures dirs == old(dirs)[dir := AddName(if dir in old(dirs) then old(dirs)[dir] else [], name)]
      ensures contents == old(contents)[(dir, name) := bytes]
      ensures statErrors == old(statErrors)
    {
      var names := if dir in dirs then dirs[dir] else [];
      AddNameDistinct(names, name);
      dirs := dirs[dir := AddName(names, name)];
      contents := contents[(dir, name) := bytes];
    }
  }

  // ---------------------------------------------------------------------------------------------
  // The lookup and the write

  /** The position of the first entry that has not expired, or the length when none is left. */
  function FirstFresh(names: seq<string>, now: int): (k: nat)
    ensures k <= |names|
    ensures forall j :: 0 <= j < k ==> !IsFreshName(names[j], now)
    ensures k < |names| ==> IsFreshName(names[k], now)
  {
    if names == [] then 0
    else if IsFreshName(names[0], now) then 0
    else 1 + FirstFresh(names[1..], now)
  }

  /**
    The scan of a cache directory: the first entry that has not expired is the hit; every
    entry listed before it is unlinked, and the ones after it are left alone.
  */
  method ScanCache(store: CacheStore, dir: string, now: int) returns (hit: Option<string>)
    requires store.Valid() && dir in store.dirs
    modifies store
    ensures store.Valid()
    ensures var names := old(store.dirs[dir]);
      var k := FirstFresh(names, now);
      && hit == (if k < |names| then Some(names[k]) else None)
      && store.dirs == old(store.dirs)[dir := names[k..]]
      && store.contents == Unlinked(old(store.contents), dir, names[..k])
      && store.statErrors == old(store.statErrors)
  {
    var names := store.dirs[dir];
    var i := 0;
    while i < |names|
      invariant 0 <= i <= |names|
      invariant forall j :: 0 <= j < i ==> !IsFreshName(names[j], now)
      invariant store.Valid()
      invariant store.dirs == old(store.dirs)[dir := names[i..]]
      invariant store.contents == Unlinked(old(store.contents), dir, names[..i])
      invariant store.statErrors == old(store.statErrors)
    {
      if IsFreshName(names[i], now) {
        return Some(names[i]);
      }
      RemoveHead(names[i..]);
      assert names[i..][1..] == names[i + 1..];
      store.Unlink(dir, names[i]);
      assert names[..i + 1][..i] == names[..i];
      i := i + 1;
    }
    assert names[..|names|] == names;
    return None;
  }

  /**
    `writeToCacheDir(dir, contentType, maxAge, expireAt, buffer)`: the bytes under the name
    that records their max-age, expiry, fingerprint and extension.
  */
  method WriteToCacheDir(store: CacheStore, dir: string, contentType: string, maxAge: int,
                         expireAt: int, buffer: seq<byte>, sha: Fingerprint.Digest, db: Mime.MimeDb)
    requires store.Valid()
    modifies store
    ensures store.Valid()
    ensures var name := EntryName(maxAge, expireAt, Fingerprint.ContentHash(sha, buffer), Mime.ExtensionText(db, contentType));
      && store.dirs == old(store.dirs)[dir := AddName(if dir in old(store.dirs) then old(store.dirs)[dir] else [], name)]
      && store.contents == old(store.contents)[(dir, name) := buffer]
      && store.statErrors == old(store.statErrors)
  {
    var extension := Mime.ExtensionText(db, contentType);
    var etag := Fingerprint.GetHash(sha, [Fingerprint.Data(buffer)]);
    store.Write(dir, EntryName(maxAge, expireAt, etag, extension), buffer);
  }

  /** Expired entries in front of a fresh one are all passed over. */
  lemma {:induction false} ExpiredPrefixIsSkipped(expired: seq<string>, rest: seq<string>, now: int)
    requires forall j :: 0 <= j < |expired| ==> !IsFreshName(expired[j], now)
    ensures FirstFresh(expired + rest, now) == |expired| + FirstFresh(rest, now)
  {
    if expired != [] {
      assert (expired + rest)[1..] == expired[1..] + rest;
      ExpiredPrefixIsSkipped(expired[1..], rest, now);
    } else {
      assert expired + rest == rest;
    }
  }
}
