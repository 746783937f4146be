/**
 * What PrintObjects writes, with the serializer left abstract: each non-empty
 * collection of an object set is written as one unit, to stdout or to a file
 * `<Kind>.yaml` in the target directory; empty collections write nothing.
 */
module Printing {
  import opened Api

  datatype Format = Yaml | Json

  /** One list field of an object set: its declared list kind and its members. */
  datatype Collection = Collection(kind: string, items: seq<Resource>)

  datatype Sink = Stdout | FileIn(directory: string, fileName: string)

  /** One write: where it goes, whether a newline precedes it on stdout, and what is rendered. */
  datatype Emission = Emission(sink: Sink, leadingNewline: bool, format: Format, kind: string, items: seq<Resource>)

  /** The single list field of LegacyObjects. */
  function LegacyCollections(l: LegacyObjects): seq<Collection> {
    [Collection("AddressPoolList", LegacyResources(l))]
  }

  /** The three list fields of CurrentObjects, in declaration order. */
  function CurrentCollections(c: CurrentObjects): seq<Collection> {
    [ Collection("IPAddressPoolList", IPAddressPoolResources(c.ipAddressPools)),
      Collection("L2AdvertisementList", L2AdvertisementResources(c.l2Advertisements)),
      Collection("BGPAdvertisementList", BGPAdvertisementResources(c.bgpAdvertisements)) ]
  }

  /** The file a collection goes to; the extension is `.yaml` whichever format is chosen. */
  function OutputFileName(kind: string): string {
    kind + ".yaml"
  }

  function PrintFrom(cols: seq<Collection>, i: nat, targetDirectory: string, toJSON: bool): seq<Emission>
    decreases |cols| - i
  {
    if i >= |cols| then []
    else if |cols[i].items| == 0 then PrintFrom(cols, i + 1, targetDirectory, toJSON)
    else
      var sink := if targetDirectory == "" then Stdout else FileIn(targetDirectory, OutputFileName(cols[i].kind));
      [Emission(sink, targetDirectory == "" && i > 0, if toJSON then Json else Yaml, cols[i].kind, cols[i].items)]
      + PrintFrom(cols, i + 1, targetDirectory, toJSON)
  }

  /** PrintObjects: the writes, in field order. */
  function PrintObjects(cols: seq<Collection>, targetDirectory: string, toJSON: bool): seq<Emission> {
    PrintFrom(cols, 0, targetDirectory, toJSON)
  }

  function AllItems(cols: seq<Collection>): seq<Resource> {
    if cols == [] then [] else cols[0].items + AllItems(cols[1..])
  }

  function EmittedItems(es: seq<Emission>): seq<Resource> {
    if es == [] then [] else es[0].items + EmittedItems(es[1..])
  }

  /** Collection `c`, at field index `j`, is written whole by `e`: same kind, same members, newline iff on stdout past field 0. */
  predicate WritesCollection(e: Emission, c: Collection, j: nat, targetDirectory: string) {
    e.kind == c.kind && e.items == c.items && e.leadingNewline == (targetDirectory == "" && j > 0)
  }

  /** A write from field `i` on is one whole collection at some field `j >= i`. */
  lemma {:induction false} PrintFromSound(cols: seq<Collection>, i: nat, targetDirectory: string, toJSON: bool, e: Emission)
    requires e in PrintFrom(cols, i, targetDirectory, toJSON)
    ensures exists j :: i <= j < |cols| && WritesCollection(e, cols[j], j, targetDirectory)
    decreases |cols| - i
  {
    var es, rest := PrintFrom(cols, i, targetDirectory, toJSON), PrintFrom(cols, i + 1, targetDirectory, toJSON);
    assert es == (if |cols[i].items| > 0 then [es[0]] + rest else rest);
    if |cols[i].items| > 0 && e == es[0] {
      assert WritesCollection(e, cols[i], i, targetDirectory);
    } else {
      assert e in rest;
      PrintFromSound(cols, i + 1, targetDirectory, toJSON, e);
    }
  }

  /** A non-empty collection at field `j >= i` is written whole. */
  lemma {:induction false} PrintFromComplete(cols: seq<Collection>, i: nat, targetDirectory: string, toJSON: bool, j: nat)
    requires i <= j < |cols| && |cols[j].items| > 0
    ensures exists e :: e in PrintFrom(cols, i, targetDirectory, toJSON) && WritesCollection(e, cols[j], j, targetDirectory)
    decreases j - i
  {
    var es, rest := PrintFrom(cols, i, targetDirectory, toJSON), PrintFrom(cols, i + 1, targetDirectory, toJSON);
    assert es == (if |cols[i].items| > 0 then [es[0]] + rest else rest);
    if j == i {
      assert WritesCollection(es[0], cols[i], i, targetDirectory);
    } else {
      PrintFromComplete(cols, i + 1, targetDirectory, toJSON, j);
      var e :| e in rest && WritesCollection(e, cols[j], j, targetDirectory);
      assert e in es;
    }
  }

  lemma {:induction false} PrintFromWrites(cols: seq<Collection>, i: nat, targetDirectory: string, toJSON: bool)
    requires i <= |cols|
    ensures var es := PrintFrom(cols, i, targetDirectory, toJSON);
      && EmittedItems(es) == AllItems(cols[i..])
      && (forall e :: e in es ==> |e.items| > 0)
      && (forall e :: e in es ==> e.format == (if toJSON then Json else Yaml))
      && (forall e :: e in es && targetDirectory != "" ==> e.sink == FileIn(targetDirectory, e.kind + ".yaml"))
      && (forall e :: e in es && targetDirectory == "" ==> e.sink == Stdout)
    decreases |cols| - i
  {
    if i < |cols| {
      PrintFromWrites(cols, i + 1, targetDirectory, toJSON);
      assert cols[i..][1..] == cols[i + 1..];
    } else {
      assert cols[i..] == [];
    }
  }

  /**
   * Nothing is lost and nothing empty is written: each write is one whole
   * non-empty collection, every non-empty collection is written, the
   * members come out in field order, and in directory mode each write goes
   * to `<Kind>.yaml` of its own collection even when JSON is chosen.
   */
  lemma PrintObjectsWrites(cols: seq<Collection>, targetDirectory: string, toJSON: bool)
    ensures var es := PrintObjects(cols, targetDirectory, toJSON);
      && EmittedItems(es) == AllItems(cols)
      && (forall e :: e in es ==> |e.items| > 0)
      && (forall e :: e in es ==> e.format == (if toJSON then Json else Yaml))
      && (forall e :: e in es && targetDirectory != "" ==> e.sink == FileIn(targetDirectory, e.kind + ".yaml"))
      && (forall e :: e in es && targetDirectory == "" ==> e.sink == Stdout)
      && (forall e :: e in es ==> exists j :: 0 <= j < |cols| && WritesCollection(e, cols[j], j, targetDirectory))
      && (forall j :: 0 <= j < |cols| && |cols[j].items| > 0 ==> exists e :: e in es && WritesCollection(e, cols[j], j, targetDirectory))
  {
    PrintFromWrites(cols, 0, targetDirectory, toJSON);
    forall e | e in PrintObjects(cols, targetDirectory, toJSON)
      ensures exists j :: 0 <= j < |cols| && WritesCollection(e, cols[j], j, targetDirectory)
    {
      PrintFromSound(cols, 0, targetDirectory, toJSON, e);
    }
    forall j | 0 <= j < |cols| && |cols[j].items| > 0
      ensures exists e :: e in PrintObjects(cols, targetDirectory, toJSON) && WritesCollection(e, cols[j], j, targetDirectory)
    {
      PrintFromComplete(cols, 0, targetDirectory, toJSON, j);
    }
    assert cols[0..] == cols;
  }

  /**
   * The directory contents a sequence of writes leaves behind, by file name:
   * a write to a file replaces what the file held (it is truncated first).
   */
  function FilesAfter(files: map<string, seq<Resource>>, es: seq<Emission>): map<string, seq<Resource>>
    decreases |es|
  {
    if es == [] then files
    else
      var before := FilesAfter(files, es[..|es| - 1]);
      var e := es[|es| - 1];
      match e.sink
      case Stdout => before
      case FileIn(_, name) => before[name := e.items]
  }

  /** The members of the three current collections, in field order. */
  lemma CurrentCollectionsItems(c: CurrentObjects)
    ensures AllItems(CurrentCollections(c)) == IPAddressPoolResources(c.ipAddressPools)
                                               + L2AdvertisementResources(c.l2Advertisements)
                                               + BGPAdvertisementResources(c.bgpAdvertisements)
  {
    var cols := CurrentCollections(c);
    assert cols[1..][1..][1..] == [];
    assert AllItems(cols[1..][1..]) == cols[2].items;
  }

  /** `e` writes the whole list `items` of kind `kind`, at field index `j` of CurrentObjects. */
  predicate WritesList(e: Emission, kind: string, items: seq<Resource>, j: nat, targetDirectory: string) {
    e.kind == kind && e.items == items && e.leadingNewline == (targetDirectory == "" && j > 0)
  }

  /** Each write of a current set is one of its three lists, whole, under that list's kind. */
  lemma CurrentWritesSound(c: CurrentObjects, targetDirectory: string, toJSON: bool)
    ensures forall e :: e in PrintObjects(CurrentCollections(c), targetDirectory, toJSON) ==>
      || WritesList(e, "IPAddressPoolList", IPAddressPoolResources(c.ipAddressPools), 0, targetDirectory)
      || WritesList(e, "L2AdvertisementList", L2AdvertisementResources(c.l2Advertisements), 1, targetDirectory)
      || WritesList(e, "BGPAdvertisementList", BGPAdvertisementResources(c.bgpAdvertisements), 2, targetDirectory)
  {
    var cols := CurrentCollections(c);
    forall e | e in PrintObjects(cols, targetDirectory, toJSON)
      ensures || WritesList(e, cols[0].kind, cols[0].items, 0, targetDirectory)
              || WritesList(e, cols[1].kind, cols[1].items, 1, targetDirectory)
              || WritesList(e, cols[2].kind, cols[2].items, 2, targetDirectory)
    {
      PrintFromSound(cols, 0, targetDirectory, toJSON, e);
      var j :| 0 <= j < |cols| && WritesCollection(e, cols[j], j, targetDirectory);
    }
  }

  /** Each non-empty list of a current set is written, whole, under its kind. */
  lemma CurrentWritesComplete(c: CurrentObjects, targetDirectory: string, toJSON: bool)
    ensures var es, ips := PrintObjects(CurrentCollections(c), targetDirectory, toJSON), IPAddressPoolResources(c.ipAddressPools);
      ips != [] ==> exists e :: e in es && WritesList(e, "IPAddressPoolList", ips, 0, targetDirectory)
    ensures var es, l2s := PrintObjects(CurrentCollections(c), targetDirectory, toJSON), L2AdvertisementResources(c.l2Advertisements);
      l2s != [] ==> exists e :: e in es && WritesList(e, "L2AdvertisementList", l2s, 1, targetDirectory)
    ensures var es, bgps := PrintObjects(CurrentCollections(c), targetDirectory, toJSON), BGPAdvertisementResources(c.bgpAdvertisements);
      bgps != [] ==> exists e :: e in es && WritesList(e, "BGPAdvertisementList", bgps, 2, targetDirectory)
  {
    var cols := CurrentCollections(c);
    var es := PrintObjects(cols, targetDirectory, toJSON);
    forall j | 0 <= j < 3 && |cols[j].items| > 0
      ensures exists e :: e in es && WritesList(e, cols[j].kind, cols[j].items, j, targetDirectory)
    {
      PrintFromComplete(cols, 0, targetDirectory, toJSON, j);
      var e :| e in es && WritesCollection(e, cols[j], j, targetDirectory);
      assert WritesList(e, cols[j].kind, cols[j].items, j, targetDirectory);
    }
    assert cols[1] == Collection("L2AdvertisementList", L2AdvertisementResources(c.l2Advertisements));
    assert cols[2] == Collection("BGPAdvertisementList", BGPAdvertisementResources(c.bgpAdvertisements));
  }

  /**
   * On stdout a newline precedes every collection but the first field, even
   * when the fields before it were empty and wrote nothing.
   */
  lemma StdoutNewlineFollowsFieldIndex(c: CurrentObjects)
    requires c.ipAddressPools == [] && c.l2Advertisements != []
    ensures var es := PrintObjects(CurrentCollections(c), "", false);
      |es| > 0 && es[0].kind == "L2AdvertisementList" && es[0].leadingNewline
  {
    var cols := CurrentCollections(c);
    assert |cols[0].items| == 0 && |cols[1].items| > 0;
    assert PrintFrom(cols, 0, "", false) == PrintFrom(cols, 1, "", false);
  }
}
