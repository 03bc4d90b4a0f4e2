/**
  The two users of a directory listing: the synchronous one, which collects all
  entries, and the asynchronous one, which fills a response buffer of 128 slots
  per request and resumes where it stopped.
 */
module ListingRequests {
  import opened PathNames
  import opened PathBuffer
  import opened DirectoryTree
  import opened DirectoryListing
  import opened ListingKinds
  import ListingOrder

  /** One slot of a response: entries take two, a type and a path. */
  datatype Slot = Unset | Type(kind: Kind) | Path(path: string) | DoneType | NoPath

  const ARRAY_SIZE: nat := 128

  function Encode(items: seq<Item>): seq<Slot> {
    if items == [] then []
    else Encode(items[..|items| - 1]) + [Type(items[|items| - 1].kind), Path(items[|items| - 1].path)]
  }

  const DONE: seq<Slot> := [DoneType, NoPath]

  lemma EncodeSnoc(items: seq<Item>, item: Item)
    ensures Encode(items + [item]) == Encode(items) + [Type(item.kind), Path(item.path)]
  {
    assert (items + [item])[..|items|] == items;
  }

  lemma {:induction false} EncodeAppend(a: seq<Item>, b: seq<Item>)
    ensures Encode(a + b) == Encode(a) + Encode(b)
    decreases |b|
  {
    if b == [] {
      assert a + b == a;
    } else {
      var front, last := b[..|b| - 1], b[|b| - 1];
      assert a + b == (a + front) + [last];
      EncodeSnoc(a + front, last);
      EncodeAppend(a, front);
    }
  }

  /** What the receiver makes of the slots: entries up to the end mark. */
  function Decode(slots: seq<Slot>): seq<Item> {
    if |slots| >= 2 && slots[0].Type? && slots[1].Path? then [Item(slots[0].kind, slots[1].path)] + Decode(slots[2..])
    else []
  }

  lemma {:induction false} DecodeInvertsEncode(items: seq<Item>)
    ensures Decode(Encode(items) + DONE) == items
  {
    if items == [] {
      assert [] + DONE == DONE;
    } else {
      var first, rest := items[0], items[1..];
      assert items == [first] + rest;
      EncodeAppend([first], rest);
      EncodeSnoc([], first);
      assert [] + [first] == [first];
      var slots := Encode(items) + DONE;
      assert slots == [Type(first.kind), Path(first.path)] + (Encode(rest) + DONE);
      assert slots[2..] == Encode(rest) + DONE;
      DecodeInvertsEncode(rest);
    }
  }

  /** Lists everything at once. */
  method SyncList(listing: Listing) returns (results: seq<Item>)
    requires listing.Valid() && listing.stack != []
    modifies listing, listing.path, listing.path.data
    ensures listing.Valid() && listing.stack == []
    ensures results == old(listing.ToReport())
  {
    hide Listing.Valid, Listing.ToReport;
    results := [];
    var running := true;
    while running
      invariant listing.Valid()
      invariant running <==> listing.stack != []
      invariant results + listing.ToReport() == old(listing.ToReport())
      invariant !running ==> listing.ToReport() == []
      decreases running, |listing.ToReport()|, |listing.stack|
    {
      var event := listing.ListNext();
      match event
      case Report(item) => results := results + [item];
      case Continue =>
      case Finished => running := false;
    }
  }

  class AsyncDirectoryListing {
    const listing: Listing
    var slots: array<Slot>
    var index: nat
    var length: nat

    ghost predicate Valid()
      reads this, listing, listing.path, listing.path.data
    {
      listing.Valid()
    }

    constructor (listing: Listing)
      requires listing.Valid()
      ensures Valid() && this.listing == listing
    {
      this.listing := listing;
      slots := new Slot[0];
      index, length := 0, 0;
    }

    /** Writes the two slots of an entry; tells whether there is room for another. */
    method AddFileSystemEntityToResponse(kind: Slot, arg: Slot) returns (room: bool)
      requires index + 2 <= length == slots.Length
      modifies this`index, slots
      ensures index == old(index) + 2 && slots[..index] == old(slots[..index]) + [kind, arg]
      ensures room == (index < length)
    {
      slots[index] := kind;
      index := index + 1;
      slots[index] := arg;
      index := index + 1;
      room := index < length;
    }

    /** Lists until the buffer is full or the listing is finished. */
    method List() returns (ghost items: seq<Item>)
      requires Valid() && listing.stack != []
      requires index == 0 && 0 < length == slots.Length && length % 2 == 0
      modifies this`index, slots, listing, listing.path, listing.path.data
      ensures Valid() && index <= length
      ensures old(listing.ToReport()) == items + listing.ToReport()
      ensures slots[..index] == Encode(items) + (if listing.stack == [] then DONE else [])
      ensures listing.stack == [] ==> listing.ToReport() == []
      ensures listing.stack != [] ==> index == length
    {
      hide Listing.Valid, Listing.ToReport, Encode;
      items := [];
      NothingSent();
      var running := true;
      while running
        invariant listing.Valid() && index <= length && index % 2 == 0
        invariant old(listing.ToReport()) == items + listing.ToReport()
        invariant slots[..index] == Encode(items) + (if listing.stack == [] then DONE else [])
        invariant running ==> listing.stack != [] && index < length
        invariant listing.stack == [] ==> listing.ToReport() == []
        invariant !running && listing.stack != [] ==> index == length
        decreases running, |listing.ToReport()|, |listing.stack|
      {
        var event := listing.ListNext();
        match event
        case Report(item) =>
          running := AddFileSystemEntityToResponse(Type(item.kind), Path(item.path));
          EncodeSnoc(items, item);
          items := items + [item];
        case Continue =>
        case Finished =>
          var _ := AddFileSystemEntityToResponse(DoneType, NoPath);
          running := false;
      }
    }

    /** One request: nothing once the listing is over, else a response that is full or the last. */
    method ListNextRequest() returns (response: seq<Slot>, ghost items: seq<Item>)
      requires Valid()
      modifies this, listing, listing.path, listing.path.data
      ensures Valid() && |response| <= ARRAY_SIZE
      ensures old(listing.stack) == [] ==> response == [] && items == [] && listing.stack == []
      ensures old(listing.stack) != [] ==> response == Encode(items) + (if listing.stack == [] then DONE else [])
      ensures old(listing.ToReport()) == items + listing.ToReport()
      ensures listing.stack == [] && old(listing.stack) != [] ==> listing.ToReport() == []
      ensures listing.stack != [] ==> |response| == ARRAY_SIZE
    {
      hide Listing.Valid, Listing.ToReport;
      if listing.stack == [] {
        return [], [];
      }
      slots := new Slot[ARRAY_SIZE](_ => Unset);
      index, length := 0, ARRAY_SIZE;
      items := List();
      response := slots[..index];
    }
  }

  /** All responses, one after the other. */
  function Concat(responses: seq<seq<Slot>>): seq<Slot> {
    if responses == [] then [] else Concat(responses[..|responses| - 1]) + responses[|responses| - 1]
  }

  lemma ConcatSnoc(responses: seq<seq<Slot>>, response: seq<Slot>)
    ensures Concat(responses + [response]) == Concat(responses) + response
  {
    assert (responses + [response])[..|responses|] == responses;
  }

  /** All responses but the last `n` are full, and none is longer than the buffer. */
  predicate FullExcept(responses: seq<seq<Slot>>, n: nat) {
    && (forall i | 0 <= i < |responses| - n :: |responses[i]| == ARRAY_SIZE)
    && (forall i | 0 <= i < |responses| :: |responses[i]| <= ARRAY_SIZE)
  }

  lemma FullSnoc(responses: seq<seq<Slot>>, response: seq<Slot>)
    ensures FullExcept([], 0)
    ensures forall n: nat | FullExcept(responses, n) && |response| <= ARRAY_SIZE :: FullExcept(responses + [response], n + 1)
    ensures FullExcept(responses, 0) && |response| == ARRAY_SIZE ==> FullExcept(responses + [response], 0)
  {
  }

  /**
    Requests until nothing more comes.  However the responses are cut, together
    they are exactly the entries of the synchronous listing, followed by one
    Done; every response but the last two is full, and the last is empty.
   */
  method AsyncListAll(async: AsyncDirectoryListing) returns (responses: seq<seq<Slot>>)
    requires async.Valid() && async.listing.stack != []
    modifies async, async.listing, async.listing.path, async.listing.path.data
    ensures async.Valid() && async.listing.stack == []
    ensures Concat(responses) == Encode(old(async.listing.ToReport())) + DONE
    ensures responses != [] && responses[|responses| - 1] == [] && FullExcept(responses, 2)
  {
    hide Listing.Valid, Listing.ToReport, Encode, Concat, FullExcept;
    responses := [];
    ghost var sent := [];
    NothingSent();
    assert FullExcept(responses, 0) by { FullSnoc([], []); }
    var more := true;
    while more
      invariant async.Valid()
      invariant old(async.listing.ToReport()) == sent + async.listing.ToReport()
      invariant Concat(responses) == Encode(sent) + (if async.listing.stack == [] then DONE else [])
      invariant async.listing.stack == [] ==> async.listing.ToReport() == []
      invariant !more ==> async.listing.stack == [] && responses != [] && responses[|responses| - 1] == []
      invariant FullExcept(responses, if !more then 2 else if async.listing.stack == [] then 1 else 0)
      decreases more, |async.listing.ToReport()|, async.listing.stack != []
    {
      var response, items := async.ListNextRequest();
      ConcatSnoc(responses, response);
      FullSnoc(responses, response);
      EncodeAppend(sent, items);
      responses := responses + [response];
      sent := sent + items;
      more := response != [];
      assert items == [] ==> Encode(items) == [] by { NothingSent(); }
    }
    assert sent + [] == sent;
  }

  lemma NothingSent()
    ensures Concat([]) == [] && Encode([]) == []
  {
  }

  // ----- What is listed

  ghost predicate Lists(items: seq<Item>, path: string) {
    exists k :: 0 <= k < |items| && items[k].path == path
  }

  /**
    A listing as the system's answers call for it: it has exactly the paths that are
    to be listed and are not dot entries, no path twice, and each with its kind.
   */
  ghost predicate RightListing(fs: FileSystem, base: string, root: Ino, o: Options, items: seq<Item>) {
    && (forall k | 0 <= k < |items| :: KindRight(fs, base, root, o, items[k]))
    && (forall i, j | 0 <= i < j < |items| :: items[i].path != items[j].path)
    && (forall names | AllValid(names) ::
          Lists(items, base + Join(names)) <==> Listable(fs, root, o, names) && !AsDot(fs, root, names))
  }

  lemma {:induction false} VisibleFrom(items: seq<Item>, i: nat) returns (j: nat)
    requires i < |Visible(items)|
    ensures j < |items| && items[j] == Visible(items)[i] && items[j].kind != KDot
  {
    if items[0].kind != KDot && i == 0 {
      j := 0;
    } else {
      var k := VisibleFrom(items[1..], if items[0].kind == KDot then i else i - 1);
      j := k + 1;
    }
  }

  lemma {:induction false} VisibleAt(items: seq<Item>, j: nat) returns (i: nat)
    requires j < |items| && items[j].kind != KDot
    ensures i < |Visible(items)| && Visible(items)[i] == items[j]
  {
    if j == 0 {
      i := 0;
    } else {
      var k := VisibleAt(items[1..], j - 1);
      i := if items[0].kind == KDot then k else k + 1;
    }
  }

  lemma {:induction false} VisibleDistinct(items: seq<Item>)
    requires forall i, j | 0 <= i < j < |items| :: items[i].path != items[j].path
    ensures forall i, j | 0 <= i < j < |Visible(items)| :: Visible(items)[i].path != Visible(items)[j].path
  {
    if items != [] {
      VisibleDistinct(items[1..]);
      forall j | 0 <= j < |Visible(items[1..])| ensures Visible(items[1..])[j].path != items[0].path {
        var k := VisibleFrom(items[1..], j);
      }
    }
  }

  lemma VisibleKinds(fs: FileSystem, base: string, root: Ino, o: Options, i: nat)
    requires WellFormed(fs) && root in fs.dirs && EndsInSlash(base)
    requires i < |Visible(VisitFrom(fs, o, root, 0, base, []))|
    ensures KindRight(fs, base, root, o, Visible(VisitFrom(fs, o, root, 0, base, []))[i])
  {
    hide WellFormed, VisitFrom, Visible, KindRight;
    var j := VisibleFrom(VisitFrom(fs, o, root, 0, base, []), i);
    KindExactly(fs, base, root, o, j);
  }

  lemma VisiblePaths(fs: FileSystem, base: string, root: Ino, o: Options, names: seq<string>)
    requires WellFormed(fs) && root in fs.dirs && EndsInSlash(base) && AllValid(names)
    ensures Lists(Visible(VisitFrom(fs, o, root, 0, base, [])), base + Join(names)) <==>
            Listable(fs, root, o, names) && !AsDot(fs, root, names)
  {
    var all, path := VisitFrom(fs, o, root, 0, base, []), base + Join(names);
    hide WellFormed, VisitFrom, Visible, Listable, AsDot, AllValid, Join, AsFile, AsLink, AsDirectory;
    NamesOfPath(base, names);
    if Lists(Visible(all), path) {
      var i :| 0 <= i < |Visible(all)| && Visible(all)[i].path == path;
      var j := VisibleFrom(all, i);
      KindExactly(fs, base, root, o, j);
      ListedIsListable(fs, base, root, o, names, j);
    }
    if Listable(fs, root, o, names) && !AsDot(fs, root, names) {
      var j := ListableIsListed(fs, base, root, o, names);
      KindExactly(fs, base, root, o, j);
      var i := VisibleAt(all, j);
    }
  }

  lemma NamesOfPath(base: string, names: seq<string>)
    requires AllValid(names)
    ensures NamesBelow(base, base + Join(names)) == names
  {
    assert (base + Join(names))[|base|..] == Join(names);
    ComponentsJoin(names);
  }

  /** The recursive traversal, without dot entries, is the listing that the system's answers call for. */
  lemma RightTraversal(fs: FileSystem, base: string, root: Ino, o: Options)
    requires WellFormed(fs) && root in fs.dirs && EndsInSlash(base)
    ensures RightListing(fs, base, root, o, Visible(VisitFrom(fs, o, root, 0, base, [])))
  {
    hide WellFormed, VisitFrom, Visible, KindRight, Lists, Listable, AsDot, AllValid, Join;
    var all := VisitFrom(fs, o, root, 0, base, []);
    forall i | 0 <= i < |Visible(all)| ensures KindRight(fs, base, root, o, Visible(all)[i]) {
      VisibleKinds(fs, base, root, o, i);
    }
    forall i, j | 0 <= i < j < |all| ensures all[i].path != all[j].path {
      NoTwice(fs, base, root, o, i, j);
    }
    VisibleDistinct(all);
    forall names | AllValid(names)
      ensures Lists(Visible(all), base + Join(names)) <==> Listable(fs, root, o, names) && !AsDot(fs, root, names)
    {
      VisiblePaths(fs, base, root, o, names);
    }
  }

  lemma NoTwice(fs: FileSystem, base: string, root: Ino, o: Options, i: nat, j: nat)
    requires WellFormed(fs) && root in fs.dirs && i < j < |VisitFrom(fs, o, root, 0, base, [])|
    ensures VisitFrom(fs, o, root, 0, base, [])[i].path != VisitFrom(fs, o, root, 0, base, [])[j].path
  {
    var l := Level(root, 0, base, []);
    assert VisitLevel(fs, o, l) == VisitFrom(fs, o, root, 0, base, []);
    hide WellFormed, VisitFrom, VisitLevel;
    ListingOrder.NoPathTwice(fs, o, l, i, j);
  }

  /** The synchronous listing is the recursive traversal. */
  method ListSync(fs: FileSystem, base: string, root: Ino, o: Options) returns (results: seq<Item>)
    requires WellFormed(fs) && root in fs.dirs && CString(base) && |base| < PATH_MAX && EndsInSlash(base)
    requires Fits(fs, o, [Level(root, 0, base, [])])
    ensures results == Visible(VisitFrom(fs, o, root, 0, base, [])) && RightListing(fs, base, root, o, results)
  {
    RightTraversal(fs, base, root, o);
    hide WellFormed, Fits, VisitFrom, RightListing;
    var listing := new Listing(fs, base, root, o);
    results := SyncList(listing);
  }

  /** The responses of the asynchronous listing are the recursive traversal, cut anywhere, and Done. */
  method ListAsync(fs: FileSystem, base: string, root: Ino, o: Options) returns (responses: seq<seq<Slot>>)
    requires WellFormed(fs) && root in fs.dirs && CString(base) && |base| < PATH_MAX && EndsInSlash(base)
    requires Fits(fs, o, [Level(root, 0, base, [])])
    ensures Concat(responses) == Encode(Visible(VisitFrom(fs, o, root, 0, base, []))) + DONE
    ensures RightListing(fs, base, root, o, Decode(Concat(responses))) && FullExcept(responses, 2)
  {
    RightTraversal(fs, base, root, o);
    DecodeInvertsEncode(Visible(VisitFrom(fs, o, root, 0, base, [])));
    hide WellFormed, Fits, VisitFrom, RightListing;
    var listing := new Listing(fs, base, root, o);
    var async := new AsyncDirectoryListing(listing);
    responses := AsyncListAll(async);
  }
}
