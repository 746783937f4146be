/**
 * Building the legacy object set: from a store listing cut to a limit, or
 * from a directory whose files each hold one or more documents separated by
 * "\n---", every document decoded and checked for group, version and kind.
 */
module Readers {
  import opened Results
  import opened Api
  import opened Store

  function Min(a: int, b: int): int {
    if a <= b then a else b
  }

  /**
   * The listing cut to `limit` items (0 means no limit), kept even when the
   * store already honours the limit.
   */
  function Truncate(items: seq<AddressPool>, limit: int): (r: seq<AddressPool>)
    requires limit >= 0
    ensures limit == 0 ==> r == items
    ensures limit > 0 ==> |r| == Min(limit, |items|)
    ensures r == items[..|r|]
  {
    if limit > 0 && |items| > limit then items[..limit] else items
  }

  /** ReadLegacyObjectsFromAPI: a negative limit is refused; otherwise a prefix of the store's listing. */
  method ReadLegacyObjectsFromAPI(store: Store, limit: int) returns (r: Result<LegacyObjects, Error>, ghost listed: seq<AddressPool>)
    requires store.Valid()
    ensures limit < 0 ==> r == Err(InvalidLimit(limit))
    ensures limit >= 0 && store.listFails ==> r == Err(ListFailed)
    ensures limit >= 0 && !store.listFails ==> IsListing(store.objects, listed) && r == Ok(LegacyObjects(Truncate(listed, limit)))
  {
    listed := [];
    if limit < 0 {
      return Err(InvalidLimit(limit)), listed;
    }
    var list := store.ListAddressPools();
    if list.Err? {
      return Err(list.error), listed;
    }
    var items := list.value;
    listed := items;
    if limit > 0 {
      if |items| > limit {
        items := items[..limit];
      }
    }
    return Ok(LegacyObjects(items)), listed;
  }

  /** "\n---", the separator the reader splits each file on. */
  const DocumentSeparator: seq<byte> := [0x0A, 0x2D, 0x2D, 0x2D]

  /**
   * Splits `s` around every occurrence of `sep`, scanning left to right as
   * Go's bytes.Split does: `cur` is the part collected so far.
   */
  function SplitFrom(s: seq<byte>, sep: seq<byte>, cur: seq<byte>): (parts: seq<seq<byte>>)
    requires |sep| > 0
    ensures |parts| >= 1
    decreases |s|
  {
    if |sep| <= |s| && s[..|sep|] == sep then [cur] + SplitFrom(s[|sep|..], sep, [])
    else if s == [] then [cur]
    else SplitFrom(s[1..], sep, cur + [s[0]])
  }

  function Split(s: seq<byte>, sep: seq<byte>): seq<seq<byte>>
    requires |sep| > 0
  {
    SplitFrom(s, sep, [])
  }

  /** Puts the parts back together with `sep` between them; the inverse of Split. */
  function Join(parts: seq<seq<byte>>, sep: seq<byte>): seq<byte> {
    if |parts| == 0 then []
    else if |parts| == 1 then parts[0]
    else parts[0] + sep + Join(parts[1..], sep)
  }

  lemma {:induction false} SplitFromJoin(s: seq<byte>, sep: seq<byte>, cur: seq<byte>)
    requires |sep| > 0
    ensures Join(SplitFrom(s, sep, cur), sep) == cur + s
    decreases |s|
  {
    if |sep| <= |s| && s[..|sep|] == sep {
      var rest := s[|sep|..];
      SplitFromJoin(rest, sep, []);
      var parts := SplitFrom(s, sep, cur);
      assert parts[1..] == SplitFrom(rest, sep, []);
      assert s == sep + rest;
    } else if s != [] {
      SplitFromJoin(s[1..], sep, cur + [s[0]]);
      assert cur + [s[0]] + s[1..] == cur + s;
    }
  }

  /** `sep` occurs in `t` starting at position `m`. */
  predicate OccursAt(t: seq<byte>, sep: seq<byte>, m: nat) {
    m + |sep| <= |t| && t[m..m + |sep|] == sep
  }

  /**
   * Splitting cuts at every occurrence: when no occurrence of `sep` starts
   * inside the collected part `cur`, no resulting piece contains `sep`.
   */
  lemma {:induction false} SplitFromPiecesFree(s: seq<byte>, sep: seq<byte>, cur: seq<byte>)
    requires |sep| > 0
    requires forall m: nat :: m < |cur| ==> !OccursAt(cur + s, sep, m)
    ensures forall k: nat, m: nat :: k < |SplitFrom(s, sep, cur)| ==> !OccursAt(SplitFrom(s, sep, cur)[k], sep, m)
    decreases |s|
  {
    var parts := SplitFrom(s, sep, cur);
    forall m: nat
      ensures !OccursAt(cur, sep, m)
    {
      if m + |sep| <= |cur| {
        assert (cur + s)[m..m + |sep|] == cur[m..m + |sep|];
        assert !OccursAt(cur + s, sep, m);
      }
    }
    if |sep| <= |s| && s[..|sep|] == sep {
      var rest := s[|sep|..];
      SplitFromPiecesFree(rest, sep, []);
      assert parts == [cur] + SplitFrom(rest, sep, []);
    } else if s == [] {
      assert parts == [cur];
    } else {
      var cur' := cur + [s[0]];
      assert cur' + s[1..] == cur + s;
      forall m: nat | m < |cur'|
        ensures !OccursAt(cur' + s[1..], sep, m)
      {
        if m == |cur| && m + |sep| <= |cur + s| {
          assert (cur + s)[|cur|..|cur| + |sep|] == s[..|sep|] by {
            forall t | 0 <= t < |sep| ensures (cur + s)[|cur| + t] == s[t] { }
          }
        }
      }
      SplitFromPiecesFree(s[1..], sep, cur');
    }
  }

  /**
   * Splitting loses nothing and misses nothing: joining the documents back
   * with the separator gives the file, and no document contains the
   * separator.
   */
  lemma SplitJoin(s: seq<byte>, sep: seq<byte>)
    requires |sep| > 0
    ensures |Split(s, sep)| >= 1
    ensures Join(Split(s, sep), sep) == s
    ensures forall k: nat, m: nat :: k < |Split(s, sep)| ==> !OccursAt(Split(s, sep)[k], sep, m)
  {
    SplitFromJoin(s, sep, []);
    SplitFromPiecesFree(s, sep, []);
  }

  /** A directory entry; `content` is None when the file cannot be read. */
  datatype File = File(name: string, content: Option<seq<byte>>)

  /** The input directory: unreadable, or its entries in the order the directory lists them. */
  datatype DirectoryListing = Unlistable | Entries(files: seq<File>)

  /** The decoded object; its variant is the decoded kind, since the decoder picks the object's type by kind. */
  datatype DecodedObject =
    | AddressPoolObject(pool: AddressPool)
    | AddressPoolListObject(items: seq<AddressPool>)
    | OtherObject(kind: string)

  /** What the decoder reports for one document: group, version and the typed object. */
  datatype Decoded = Decoded(group: string, version: string, payload: DecodedObject)

  function KindOf(o: DecodedObject): string {
    match o
    case AddressPoolObject(_) => "AddressPool"
    case AddressPoolListObject(_) => "AddressPoolList"
    case OtherObject(kind) => kind
  }

  /** The pools one decoded document contributes, or why it fails the read. */
  function DocumentPools(decoded: Result<Decoded, string>): Result<seq<AddressPool>, Error> {
    match decoded
    case Err(reason) => Err(DecodeFailed(reason))
    case Ok(d) =>
      if d.group != MetallbAPIGroup then Err(InvalidGroup(d.group))
      else if d.version !in SupportedLegacyVersions then Err(InvalidVersion(d.version))
      else
        match d.payload
        case AddressPoolObject(p) => Ok([p])
        case AddressPoolListObject(items) => Ok(items)
        case OtherObject(kind) => Err(UnsupportedKind(kind))
  }

  /** A document the reader accepts: decodable, group metallb.io, version v1beta1, kind AddressPool or AddressPoolList. */
  predicate Accepted(decoded: Result<Decoded, string>) {
    && decoded.Ok?
    && decoded.value.group == MetallbAPIGroup
    && decoded.value.version in SupportedLegacyVersions
    && !decoded.value.payload.OtherObject?
  }

  /** Appends two partial reads; the first error wins. */
  function AndThen(x: Result<seq<AddressPool>, Error>, y: Result<seq<AddressPool>, Error>): Result<seq<AddressPool>, Error> {
    match x
    case Err(e) => Err(e)
    case Ok(a) =>
      match y
      case Err(e) => Err(e)
      case Ok(b) => Ok(a + b)
  }

  lemma AndThenAssociative(x: Result<seq<AddressPool>, Error>, y: Result<seq<AddressPool>, Error>, z: Result<seq<AddressPool>, Error>)
    ensures AndThen(AndThen(x, y), z) == AndThen(x, AndThen(y, z))
  {
    if x.Ok? && y.Ok? && z.Ok? {
      assert x.value + y.value + z.value == x.value + (y.value + z.value);
    }
  }

  /** Reads documents in order, appending their pools; the first rejected document fails the read. */
  function ReadDocuments(docs: seq<seq<byte>>, decode: seq<byte> -> Result<Decoded, string>): Result<seq<AddressPool>, Error> {
    if docs == [] then Ok([])
    else AndThen(ReadDocuments(docs[..|docs| - 1], decode), DocumentPools(decode(docs[|docs| - 1])))
  }

  function ReadFile(f: File, decode: seq<byte> -> Result<Decoded, string>): Result<seq<AddressPool>, Error> {
    match f.content
    case None => Err(FileUnreadable(f.name))
    case Some(content) => ReadDocuments(Split(content, DocumentSeparator), decode)
  }

  /** Reads files in order, appending their pools; the first failing file fails the read. */
  function ReadFiles(files: seq<File>, decode: seq<byte> -> Result<Decoded, string>): Result<seq<AddressPool>, Error> {
    if files == [] then Ok([])
    else AndThen(ReadFiles(files[..|files| - 1], decode), ReadFile(files[|files| - 1], decode))
  }

  function ReadDirectory(dir: DirectoryListing, decode: seq<byte> -> Result<Decoded, string>): Result<LegacyObjects, Error> {
    match dir
    case Unlistable => Err(DirectoryUnreadable)
    case Entries(files) =>
      match ReadFiles(files, decode)
      case Err(e) => Err(e)
      case Ok(items) => Ok(LegacyObjects(items))
  }

  lemma {:induction false} ReadDocumentsErrorPersists(docs: seq<seq<byte>>, decode: seq<byte> -> Result<Decoded, string>, k: nat)
    requires k <= |docs| && ReadDocuments(docs[..k], decode).Err?
    ensures ReadDocuments(docs, decode) == ReadDocuments(docs[..k], decode)
    decreases |docs|
  {
    if k < |docs| {
      var init := docs[..|docs| - 1];
      assert init[..k] == docs[..k];
      ReadDocumentsErrorPersists(init, decode, k);
    } else {
      assert docs[..k] == docs;
    }
  }

  lemma {:induction false} ReadFilesErrorPersists(files: seq<File>, decode: seq<byte> -> Result<Decoded, string>, k: nat)
    requires k <= |files| && ReadFiles(files[..k], decode).Err?
    ensures ReadFiles(files, decode) == ReadFiles(files[..k], decode)
    decreases |files|
  {
    if k < |files| {
      var init := files[..|files| - 1];
      assert init[..k] == files[..k];
      ReadFilesErrorPersists(init, decode, k);
    } else {
      assert files[..k] == files;
    }
  }

  /** Per document: accepted exactly as Accepted says; an AddressPool adds itself, an AddressPoolList adds its items. */
  lemma DocumentPoolsByKind(decoded: Result<Decoded, string>)
    ensures DocumentPools(decoded).Ok? <==> Accepted(decoded)
    ensures Accepted(decoded) && decoded.value.payload.AddressPoolObject? ==>
      DocumentPools(decoded).value == [decoded.value.payload.pool]
    ensures Accepted(decoded) && decoded.value.payload.AddressPoolListObject? ==>
      DocumentPools(decoded).value == decoded.value.payload.items
  {
  }

  ghost predicate DocumentsAccepted(docs: seq<seq<byte>>, decode: seq<byte> -> Result<Decoded, string>) {
    forall j :: 0 <= j < |docs| ==> Accepted(decode(docs[j]))
  }

  ghost predicate FileAccepted(f: File, decode: seq<byte> -> Result<Decoded, string>) {
    f.content.Some? && DocumentsAccepted(Split(f.content.value, DocumentSeparator), decode)
  }

  /** A file's documents are read exactly when every one of them is accepted. */
  lemma {:induction false} ReadDocumentsSucceedsIff(docs: seq<seq<byte>>, decode: seq<byte> -> Result<Decoded, string>)
    ensures ReadDocuments(docs, decode).Ok? <==> DocumentsAccepted(docs, decode)
  {
    if docs != [] {
      var n := |docs| - 1;
      ReadDocumentsSucceedsIff(docs[..n], decode);
      assert forall j :: 0 <= j < n ==> docs[..n][j] == docs[j];
      DocumentPoolsByKind(decode(docs[n]));
    }
  }

  /**
   * A directory read succeeds exactly when every file can be read and every
   * document in it is accepted: one bad document fails the whole read.
   */
  lemma {:induction false} ReadFilesSucceedsIff(files: seq<File>, decode: seq<byte> -> Result<Decoded, string>)
    ensures ReadFiles(files, decode).Ok? <==> forall i :: 0 <= i < |files| ==> FileAccepted(files[i], decode)
  {
    if files != [] {
      var n := |files| - 1;
      ReadFilesSucceedsIff(files[..n], decode);
      assert forall i :: 0 <= i < n ==> files[..n][i] == files[i];
      if files[n].content.Some? {
        ReadDocumentsSucceedsIff(Split(files[n].content.value, DocumentSeparator), decode);
      }
    }
  }

  /** Reading a concatenation of documents appends the pools of each part, in order. */
  lemma {:induction false} ReadDocumentsAppend(a: seq<seq<byte>>, b: seq<seq<byte>>, decode: seq<byte> -> Result<Decoded, string>)
    ensures ReadDocuments(a + b, decode) == AndThen(ReadDocuments(a, decode), ReadDocuments(b, decode))
    decreases |b|
  {
    if b == [] {
      assert a + b == a;
      assert ReadDocuments(a, decode).Ok? ==> ReadDocuments(a, decode).value + [] == ReadDocuments(a, decode).value;
    } else {
      var n := |b| - 1;
      assert (a + b)[..|a + b| - 1] == a + b[..n];
      assert (a + b)[|a + b| - 1] == b[n];
      ReadDocumentsAppend(a, b[..n], decode);
      AndThenAssociative(ReadDocuments(a, decode), ReadDocuments(b[..n], decode), DocumentPools(decode(b[n])));
    }
  }

  /** Reading a concatenation of files appends the pools of each part, in order: the read flattens. */
  lemma {:induction false} ReadFilesAppend(a: seq<File>, b: seq<File>, decode: seq<byte> -> Result<Decoded, string>)
    ensures ReadFiles(a + b, decode) == AndThen(ReadFiles(a, decode), ReadFiles(b, decode))
    decreases |b|
  {
    if b == [] {
      assert a + b == a;
      assert ReadFiles(a, decode).Ok? ==> ReadFiles(a, decode).value + [] == ReadFiles(a, decode).value;
    } else {
      var n := |b| - 1;
      assert (a + b)[..|a + b| - 1] == a + b[..n];
      assert (a + b)[|a + b| - 1] == b[n];
      ReadFilesAppend(a, b[..n], decode);
      AndThenAssociative(ReadFiles(a, decode), ReadFiles(b[..n], decode), ReadFile(b[n], decode));
    }
  }

  /**
   * The inner loop of ReadLegacyObjectsFromDirectory: checks each document of
   * one file in turn and appends its pools to `items`.
   */
  method AppendDocuments(items: seq<AddressPool>, elements: seq<seq<byte>>, decode: seq<byte> -> Result<Decoded, string>)
    returns (r: Result<seq<AddressPool>, Error>)
    ensures r == match ReadDocuments(elements, decode)
                 case Err(e) => Err(e)
                 case Ok(more) => Ok(items + more)
  {
    var acc := items;
    assert elements[..0] == [] && acc[|items|..] == [];
    for j := 0 to |elements|
      invariant |items| <= |acc| && acc[..|items|] == items
      invariant ReadDocuments(elements[..j], decode) == Ok(acc[|items|..])
    {
      var element := elements[j];
      assert elements[..j + 1][..j] == elements[..j] && elements[..j + 1][j] == element;
      var decoded := decode(element);
      if decoded.Err? {
        ReadDocumentsErrorPersists(elements, decode, j + 1);
        return Err(DecodeFailed(decoded.error));
      }
      var d := decoded.value;
      if d.group != MetallbAPIGroup {
        ReadDocumentsErrorPersists(elements, decode, j + 1);
        return Err(InvalidGroup(d.group));
      }
      if d.version !in SupportedLegacyVersions {
        ReadDocumentsErrorPersists(elements, decode, j + 1);
        return Err(InvalidVersion(d.version));
      }
      ghost var before := acc;
      match d.payload {
        case AddressPoolObject(ap) =>
          acc := acc + [ap];
        case AddressPoolListObject(apl) =>
          acc := acc + apl;
        case OtherObject(kind) =>
          ReadDocumentsErrorPersists(elements, decode, j + 1);
          return Err(UnsupportedKind(kind));
      }
      assert DocumentPools(decoded) == Ok(acc[|before|..]);
      assert acc[|items|..] == before[|items|..] + acc[|before|..];
    }
    assert elements[..|elements|] == elements;
    assert acc == items + acc[|items|..];
    return Ok(acc);
  }

  /** ReadLegacyObjectsFromDirectory: split every file, check and decode every document, flatten the pools. */
  method ReadLegacyObjectsFromDirectory(dir: DirectoryListing, decode: seq<byte> -> Result<Decoded, string>)
    returns (r: Result<LegacyObjects, Error>)
    ensures r == ReadDirectory(dir, decode)
  {
    if dir.Unlistable? {
      return Err(DirectoryUnreadable);
    }
    var files := dir.files;
    var items: seq<AddressPool> := [];
    for i := 0 to |files|
      invariant ReadFiles(files[..i], decode) == Ok(items)
    {
      var file := files[i];
      assert files[..i + 1][..i] == files[..i] && files[..i + 1][i] == file;
      if file.content.None? {
        ReadFilesErrorPersists(files, decode, i + 1);
        return Err(FileUnreadable(file.name));
      }
      var elements := Split(file.content.value, DocumentSeparator);
      var appended := AppendDocuments(items, elements, decode);
      if appended.Err? {
        ReadFilesErrorPersists(files, decode, i + 1);
        return Err(appended.error);
      }
      items := appended.value;
    }
    assert files[..|files|] == files;
    return Ok(LegacyObjects(items));
  }
}
