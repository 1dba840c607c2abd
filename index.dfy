/**
 The coordinator's in-memory index of the replicated file store: which files
 each storage node (Dstore, identified by its port) holds, which files are
 committed and with what size, a per-file cursor counting the nodes already
 tried by a load/reload sequence, and a list of in-progress markers
 "<STATE> <filename>" that the controller uses as its per-file lock.
 */
module CoordinatorIndex {
  import opened Tokens
  import opened Lists

  datatype Option<T> = None | Some(value: T)

  // ---------------------------------------------------------------------------
  // The marker list, as values

  /** Position of the first marker about `filename`, or |markers| when no marker is. */
  function FirstMarkerFor(markers: seq<string>, filename: string): (k: nat)
    ensures k <= |markers|
    ensures forall j :: 0 <= j < k ==> NameField(markers[j]) != filename
    ensures k < |markers| ==> NameField(markers[k]) == filename
  {
    if markers == [] then 0
    else if NameField(markers[0]) == filename then 0
    else 1 + FirstMarkerFor(markers[1..], filename)
  }

  /**
   What `currentFileState` answers: the state of the first marker about
   `filename`, or nothing (Java `null`) when there is none.
   */
  function StateOf(markers: seq<string>, filename: string): (r: Option<string>)
    ensures r.None? <==> forall i :: 0 <= i < |markers| ==> NameField(markers[i]) != filename
    ensures r.Some? ==> exists k :: 0 <= k < |markers| && NameField(markers[k]) == filename
                                    && r.value == StateField(markers[k])
                                    && forall j :: 0 <= j < k ==> NameField(markers[j]) != filename
  {
    var k := FirstMarkerFor(markers, filename);
    if k < |markers| then Some(StateField(markers[k])) else None
  }

  /**
   What `removeCurrentState` leaves: the list without its first marker about
   `filename`, the others in their order; the same list when there is none.
   */
  function WithoutMarker(markers: seq<string>, filename: string): (r: seq<string>)
    ensures StateOf(markers, filename).None? ==> r == markers
    ensures StateOf(markers, filename).Some? ==> |r| == |markers| - 1
    ensures forall m :: m in r ==> m in markers
  {
    var k := FirstMarkerFor(markers, filename);
    if k < |markers| then markers[..k] + markers[k + 1..] else markers
  }

  /**
   Appending a marker does not change the answer for a file that already had
   one; for a file that had none, the answer becomes the new marker's state
   when it is about that file.
   */
  lemma {:induction false} StateAfterPush(markers: seq<string>, m: string, filename: string)
    ensures StateOf(markers + [m], filename) ==
              if StateOf(markers, filename).Some? then StateOf(markers, filename)
              else if NameField(m) == filename then Some(StateField(m))
              else None
  {
    FirstMarkerAfterPush(markers, m, filename);
  }

  /** The first match in `markers + [m]` is the one in `markers`, or else `m` itself. */
  lemma {:induction false} FirstMarkerAfterPush(markers: seq<string>, m: string, filename: string)
    ensures FirstMarkerFor(markers + [m], filename) ==
              if FirstMarkerFor(markers, filename) < |markers| then FirstMarkerFor(markers, filename)
              else if NameField(m) == filename then |markers|
              else |markers| + 1
  {
    if markers != [] {
      assert (markers + [m])[1..] == markers[1..] + [m];
      FirstMarkerAfterPush(markers[1..], m, filename);
    }
  }

  /**
   Setting a marker for a file that had none and then removing the file's
   marker gives back the original list: taking and releasing the lock leaves
   the other markers as they were.
   */
  lemma PushThenRemove(markers: seq<string>, m: string, filename: string)
    requires StateOf(markers, filename).None?
    requires NameField(m) == filename
    ensures WithoutMarker(markers + [m], filename) == markers
    ensures StateOf(WithoutMarker(markers + [m], filename), filename).None?
  {
    FirstMarkerAfterPush(markers, m, filename);
    assert (markers + [m])[..|markers|] == markers;
  }

  /** A position that meets FirstMarkerFor's contract is the one it returns. */
  lemma FirstMarkerUnique(markers: seq<string>, filename: string, k: nat)
    requires k <= |markers|
    requires forall j :: 0 <= j < k ==> NameField(markers[j]) != filename
    requires k < |markers| ==> NameField(markers[k]) == filename
    ensures FirstMarkerFor(markers, filename) == k
  {
  }

  /**
   Deleting a position that is not about `filename` keeps the first marker
   about `filename`; it moves down by one when it came after the deleted one.
   */
  lemma FirstMarkerAfterDelete(markers: seq<string>, i: nat, filename: string)
    requires i < |markers| && NameField(markers[i]) != filename
    ensures var k := FirstMarkerFor(markers, filename);
            FirstMarkerFor(markers[..i] + markers[i + 1..], filename) == if k < i then k else k - 1
  {
    var r := markers[..i] + markers[i + 1..];
    var k := FirstMarkerFor(markers, filename);
    assert forall j :: 0 <= j < i ==> r[j] == markers[j];
    assert forall j :: i <= j < |r| ==> r[j] == markers[j + 1];
    FirstMarkerUnique(r, filename, if k < i then k else k - 1);
  }

  /** Removing the marker of one file does not change the answer for another. */
  lemma RemoveKeepsOtherState(markers: seq<string>, g: string, filename: string)
    requires g != filename
    ensures StateOf(WithoutMarker(markers, g), filename) == StateOf(markers, filename)
  {
    var i := FirstMarkerFor(markers, g);
    if i < |markers| {
      var r := markers[..i] + markers[i + 1..];
      FirstMarkerAfterDelete(markers, i, filename);
      var k := FirstMarkerFor(markers, filename);
      if k < i {
        assert r[k] == markers[k];
      } else if k < |markers| {
        assert r[k - 1] == markers[k];
      }
    }
  }

  /**
   The listing of a set of names, walked once each: empty for no names, and
   when no name holds a space, splitting it gives back exactly the set, each
   name once.
   */
  lemma ListingReadsBack(names: seq<string>, committed: set<string>)
    requires Distinct(names)
    requires forall f :: f in names <==> f in committed
    ensures committed == {} ==> Join(names) == ""
    ensures committed != {} && (forall f :: f in committed ==> NoSpace(f)) ==>
              Distinct(Fields(Join(names))) && forall f :: f in Fields(Join(names)) <==> f in committed
  {
    assert |names| > 0 ==> names[0] in committed;
    if committed != {} && forall f :: f in committed ==> NoSpace(f) {
      var f :| f in committed;
      assert f in names;
      FieldsOfJoin(names);
    }
  }

  // ---------------------------------------------------------------------------
  // The index itself

  class Index {
    /** In-progress markers "<STATE> <filename>", oldest first. */
    var currentState: seq<string>
    /** Each registered storage node's port and the filenames it holds. */
    var dstoreFiles: map<int, seq<string>>
    /** The committed files and their sizes: being a key here is what makes a file exist. */
    var dstoreFileSizes: map<string, int>
    /** Per file, how many storage nodes a load/reload sequence has tried so far. */
    var fileDStoresAccessed: map<string, int>

    /**
     Every committed file has a cursor, cursors are never negative, and every
     marker has the filename field that the lookups read.
     */
    ghost predicate Valid()
      reads this
    {
      && dstoreFileSizes.Keys <= fileDStoresAccessed.Keys
      && (forall f :: f in fileDStoresAccessed ==> fileDStoresAccessed[f] >= 0)
      && (forall i :: 0 <= i < |currentState| ==> HasSecondField(currentState[i]))
    }

    constructor ()
      ensures Valid()
      ensures currentState == [] && dstoreFiles == map[]
      ensures dstoreFileSizes == map[] && fileDStoresAccessed == map[]
    {
      currentState := [];
      dstoreFiles := map[];
      dstoreFileSizes := map[];
      fileDStoresAccessed := map[];
    }

    /** Whether `filename` is committed; a committed file always has a cursor. */
    function ContainsFilename(filename: string): (present: bool)
      reads this
      ensures Valid() && present ==> filename in fileDStoresAccessed
    {
      filename in dstoreFileSizes
    }

    /**
     The committed size of `filename` (the source dereferences a missing
     entry); in a valid index the file then also has a cursor to read.
     */
    function GetFileSize(filename: string): (size: int)
      reads this
      requires ContainsFilename(filename)
      ensures (filename, size) in dstoreFileSizes.Items
      ensures Valid() ==> filename in fileDStoresAccessed
    {
      dstoreFileSizes[filename]
    }

    /** How many storage nodes have been tried for `filename`; never negative. */
    function GetCurrentStoreFile(filename: string): (tried: int)
      reads this
      requires Valid()
      requires filename in fileDStoresAccessed
      ensures tried >= 0
    {
      fileDStoresAccessed[filename]
    }

    /** Registers storage node `port` with exactly `files`, replacing an earlier list. */
    method AddFiles(port: int, files: seq<string>)
      requires Valid()
      modifies this
      ensures Valid()
      ensures dstoreFiles == old(dstoreFiles)[port := files]
      ensures port in dstoreFiles && dstoreFiles[port] == files
      ensures dstoreFileSizes == old(dstoreFileSizes)
      ensures fileDStoresAccessed == old(fileDStoresAccessed)
      ensures currentState == old(currentState)
    {
      dstoreFiles := dstoreFiles[port := files];
    }

    /** Commits `filename` with `size` and starts its cursor at zero. */
    method AddFileSizes(filename: string, size: int)
      requires Valid()
      modifies this
      ensures Valid()
      ensures ContainsFilename(filename) && GetFileSize(filename) == size
      ensures GetCurrentStoreFile(filename) == 0
      ensures dstoreFileSizes == old(dstoreFileSizes)[filename := size]
      ensures fileDStoresAccessed == old(fileDStoresAccessed)[filename := 0]
      ensures dstoreFiles == old(dstoreFiles)
      ensures currentState == old(currentState)
    {
      dstoreFileSizes := dstoreFileSizes[filename := size];
      fileDStoresAccessed := fileDStoresAccessed[filename := 0];
    }

    /** Appends `filename` to the list of the already registered node `port`. */
    method AddDStoreFile(port: int, filename: string)
      requires Valid()
      requires port in dstoreFiles
      modifies this
      ensures Valid()
      ensures dstoreFiles == old(dstoreFiles)[port := old(dstoreFiles)[port] + [filename]]
      ensures dstoreFileSizes == old(dstoreFileSizes)
      ensures fileDStoresAccessed == old(fileDStoresAccessed)
      ensures currentState == old(currentState)
    {
      dstoreFiles := dstoreFiles[port := dstoreFiles[port] + [filename]];
    }

    /**
     Forgets `filename`: its size and cursor go, and every node's list loses
     its first copy of the name (a second copy, if a list had one, stays).
     */
    method RemoveFiles(filename: string)
      requires Valid()
      modifies this
      ensures Valid()
      ensures !ContainsFilename(filename) && filename !in fileDStoresAccessed
      ensures dstoreFiles.Keys == old(dstoreFiles).Keys
      ensures forall p :: p in dstoreFiles ==> dstoreFiles[p] == RemoveFirst(old(dstoreFiles)[p], filename)
      ensures forall p :: p in dstoreFiles ==>
                (filename in dstoreFiles[p] <==> multiset(old(dstoreFiles)[p])[filename] >= 2)
      ensures dstoreFileSizes == old(dstoreFileSizes) - {filename}
      ensures fileDStoresAccessed == old(fileDStoresAccessed) - {filename}
      ensures currentState == old(currentState)
    {
      var before := dstoreFiles;
      var after := map p | p in before :: RemoveFirst(before[p], filename);
      forall p | p in after
        ensures filename in after[p] <==> multiset(before[p])[filename] >= 2
      {
        RemoveFirstMembership(before[p], filename, filename);
      }
      dstoreFiles := after;
      dstoreFileSizes := dstoreFileSizes - {filename};
      fileDStoresAccessed := fileDStoresAccessed - {filename};
    }

    /**
     The LIST reply body: every committed file once, joined by single spaces,
     in the map's iteration order. When no name holds a space, splitting the
     reply at spaces gives back exactly the committed files.
     */
    method GetAllFiles() returns (listing: string, ghost names: seq<string>)
      ensures Distinct(names) && forall f :: f in names <==> ContainsFilename(f)
      ensures listing == Join(names)
      ensures dstoreFileSizes == map[] ==> listing == ""
      ensures dstoreFileSizes != map[] && (forall f :: f in dstoreFileSizes ==> NoSpace(f)) ==>
                Distinct(Fields(listing)) && forall f :: f in Fields(listing) <==> ContainsFilename(f)
    {
      var keys := Enumerate(dstoreFileSizes.Keys);
      names := keys;
      listing := Join(keys);
      ListingReadsBack(keys, dstoreFileSizes.Keys);
    }

    /** The registered nodes whose list holds `filename`, each once. */
    method GetPortsWithFile(filename: string) returns (ports: seq<int>)
      ensures Distinct(ports)
      ensures forall p :: p in ports <==> p in dstoreFiles && filename in dstoreFiles[p]
    {
      var keys := Enumerate(dstoreFiles.Keys);
      ports := [];
      for i := 0 to |keys|
        invariant Distinct(ports)
        invariant forall p :: p in ports <==> p in keys[..i] && filename in dstoreFiles[p]
      {
        var key := keys[i];
        if filename in dstoreFiles[key] {
          ports := ports + [key];
        }
      }
      assert keys[..|keys|] == keys;
    }

    /**
     The first `r` registered nodes in the map's iteration order, or an empty
     list when fewer than `r` are registered. Nodes are not ranked by load.
     */
    method GetRDStores(r: int) returns (ports: seq<int>)
      requires r >= 0
      ensures |dstoreFiles| < r ==> ports == []
      ensures |dstoreFiles| >= r ==> |ports| == r && Distinct(ports)
      ensures forall p :: p in ports ==> p in dstoreFiles
    {
      if |dstoreFiles| < r {
        return [];
      }
      var keys := Enumerate(dstoreFiles.Keys);
      ports := keys[..r];
    }

    /** The state of the first marker about `filename`, or `None` (Java `null`) when there is none. */
    method CurrentFileState(filename: string) returns (state: Option<string>)
      requires Valid()
      ensures state == StateOf(currentState, filename)
    {
      state := None;
      var i := 0;
      while i < |currentState|
        invariant 0 <= i <= |currentState|
        invariant forall j :: 0 <= j < i ==> NameField(currentState[j]) != filename
      {
        var st := currentState[i];
        if NameField(st) == filename {
          state := Some(StateField(st));
          break;
        }
        i := i + 1;
      }
    }

    /** Deletes the first marker about `filename`, keeping the others in order; no marker, no change. */
    method RemoveCurrentState(filename: string)
      requires Valid()
      modifies this
      ensures Valid()
      ensures currentState == WithoutMarker(old(currentState), filename)
      ensures dstoreFiles == old(dstoreFiles)
      ensures dstoreFileSizes == old(dstoreFileSizes)
      ensures fileDStoresAccessed == old(fileDStoresAccessed)
    {
      var i := 0;
      while i < |currentState|
        invariant 0 <= i <= |currentState|
        invariant currentState == old(currentState)
        invariant forall j :: 0 <= j < i ==> NameField(currentState[j]) != filename
      {
        var st := currentState[i];
        if NameField(st) == filename {
          currentState := currentState[..i] + currentState[i + 1..];
          break;
        }
        i := i + 1;
      }
    }

    /** Raises the cursor of `filename` by one. */
    method IncrementCurrentStoreFiles(filename: string)
      requires Valid()
      requires filename in fileDStoresAccessed
      modifies this
      ensures Valid()
      ensures fileDStoresAccessed == old(fileDStoresAccessed)[filename := old(fileDStoresAccessed)[filename] + 1]
      ensures GetCurrentStoreFile(filename) == old(GetCurrentStoreFile(filename)) + 1
      ensures dstoreFiles == old(dstoreFiles)
      ensures dstoreFileSizes == old(dstoreFileSizes)
      ensures currentState == old(currentState)
    {
      fileDStoresAccessed := fileDStoresAccessed[filename := fileDStoresAccessed[filename] + 1];
    }

    /** Sets the cursor of `filename` back to zero, creating it when there was none. */
    method ResetCurrentStoreFile(filename: string)
      requires Valid()
      modifies this
      ensures Valid()
      ensures fileDStoresAccessed == old(fileDStoresAccessed)[filename := 0]
      ensures GetCurrentStoreFile(filename) == 0
      ensures dstoreFiles == old(dstoreFiles)
      ensures dstoreFileSizes == old(dstoreFileSizes)
      ensures currentState == old(currentState)
    {
      fileDStoresAccessed := fileDStoresAccessed[filename := 0];
    }

    /** Appends `marker` to the end of the marker list. */
    method SetCurrentState(marker: string)
      requires Valid()
      requires HasSecondField(marker)
      modifies this
      ensures Valid()
      ensures currentState == old(currentState) + [marker]
      ensures dstoreFiles == old(dstoreFiles)
      ensures dstoreFileSizes == old(dstoreFileSizes)
      ensures fileDStoresAccessed == old(fileDStoresAccessed)
    {
      currentState := currentState + [marker];
    }
  }
}
