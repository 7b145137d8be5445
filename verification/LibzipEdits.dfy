/**
 What each edit of an open archive does, in terms of what is seen afterwards: the
 names, states, sources and comments of the entries. Everything not named by a
 law is left as it was.
 */
module ZipEdits {
  import opened Results
  import opened ZipBytes
  import opened ZipFormat
  import opened ZipArchive

  /** At most entry `i` is changed. */
  predicate OthersSame(z: Zip, z': Zip, i: nat) {
    && z' == z.(entries := z'.entries) && |z'.entries| == |z.entries|
    && forall k | 0 <= k < |z.entries| && k != i :: z'.entries[k] == z.entries[k]
  }

  /** No other entry is seen under the name, or entry `i` is the first that is. */
  predicate FreeFor(z: Zip, name: Data, i: nat) {
    forall k | 0 <= k < |z.entries| && k != i && SeenAs(z, k, name) :: SeenAs(z, i, name) && i < k
  }

  lemma FreeIff(z: Zip, name: Data, i: nat)
    requires i < |z.entries|
    ensures FreeFor(z, name, i) <==> Locate(z, name, 0) == -1 || Locate(z, name, 0) == i
    ensures SeenAs(z, i, name) && FreeFor(z, name, i) <==> Locate(z, name, 0) == i
  {
    var at := Locate(z, name, 0);
    if at >= 0 && at != i { assert SeenAs(z, at, name); }
  }

  /** While names are distinct, that is the absence of other bearers. */
  lemma FreeIfDistinct(z: Zip, name: Data, i: nat)
    requires Distinct(z) && i < |z.entries|
    ensures FreeFor(z, name, i) <==> forall k | 0 <= k < |z.entries| && k != i :: !SeenAs(z, k, name)
  {
    if SeenAs(z, i, name) {
      forall k | 0 <= k < |z.entries| && k != i ensures !SeenAs(z, k, name) {
        assert Name(z, i) == Some(name);
        if k < i { assert Name(z, k).Some? ==> Name(z, k) != Name(z, i); }
      }
    }
  }

  /** The name ends in a slash. */
  ghost predicate Directory(name: Data) { exists stem: Data :: name == stem + [0x2F] }

  lemma DirectoryIff(name: Data)
    ensures Directory(name) <==> IsDir(name)
  {
    if IsDir(name) { assert name == name[..|name| - 1] + [0x2F]; }
  }

  ghost predicate MayRename(z: Zip, i: int, name: Data) {
    && 0 <= i < |z.entries| && name != [] && Name(z, i).Some?
    && (Directory(name) <==> Directory(Name(z, i).value)) && FreeFor(z, name, i)
  }

  /**
     A rename succeeds exactly if there is such an entry to be seen, a new name,
     which is that of a directory if the old one is, and nobody else has it. Then
     the entry is seen under it; otherwise nothing changes.
     */
  lemma RenameRenames(z: Zip, i: int, name: Data)
    ensures var (o, inRange) := (Apply(z, RenameOp(i, name)), 0 <= i < |z.entries| && name != []);
            && (o.ret.Ok? <==> MayRename(z, i, name))
            && (o.ret.Ok? ==>
                  && o.ret == Ok(0) && OthersSame(z, o.z, i) && Name(o.z, i) == Some(name)
                  && var e, e' := z.entries[i], o.z.entries[i];
                     && e'.source == e.source && e'.chComment == e.chComment
                     && e'.state == if e.state == Unchanged && Name(z, i) != Some(name) then Renamed else e.state)
            && (o.ret.Err? ==> o.z == z)
            && (o.ret == Err(EntryDeleted) <==> inRange && z.entries[i].state == Deleted)
            && (o.ret == Err(NameExists)
                <==> inRange && Name(z, i).Some? && (Directory(name) <==> Directory(Name(z, i).value))
                     && !FreeFor(z, name, i))
            && (o.ret.Ok? || o.ret.error in {InvalidArgument, EntryDeleted, NameExists})
  {
    hide Locate, FreeFor, Directory;
    if 0 <= i < |z.entries| && Name(z, i).Some? {
      FreeIff(z, name, i);
      DirectoryIff(name);
      DirectoryIff(Name(z, i).value);
    }
  }

  /**
     An addition succeeds exactly if nobody has the name, and puts a new entry of
     that name and source behind the others. One that fails leaves an entry
     without a name there.
     */
  lemma AddAdds(z: Zip, name: Data, source: Source)
    requires Inv(z)
    ensures var (o, n) := (Apply(z, AddOp(name, source)), |z.entries|);
            && o.ret == (if forall k | 0 <= k < n :: !SeenAs(z, k, name) then Ok(n) else Err(NameExists))
            && o.z == z.(entries := o.z.entries) && |o.z.entries| == n + 1 && o.z.entries[..n] == z.entries
            && Name(o.z, n) == (if o.ret.Ok? then Some(name) else None)
            && o.z.entries[n].state == (if o.ret.Ok? then Added else Unchanged)
            && o.z.entries[n].source == (if o.ret.Ok? then Some(source) else None)
            && o.z.entries[n].chComment == None
  {
    hide Locate, FreeFor, Inv;
    var n, z0 := |z.entries|, WithNewEntry(z);
    NoOriginal(z);
    assert z0.entries[n := UnchangeData(z0.entries[n])] == z0.entries;
    FreeIff(z0, name, n);
    assert forall k | 0 <= k < n :: Name(z0, k) == Name(z, k);
    assert !SeenAs(z0, n, name);
    assert FreeFor(z0, name, n) <==> forall k | 0 <= k < n :: !SeenAs(z, k, name) by {
      FreeInLonger(z, z0, name);
    }
  }

  lemma NoOriginal(z: Zip)
    requires Inv(z)
    ensures Originals(z) <= |z.entries|
  {
  }

  lemma FreeInLonger(z: Zip, z0: Zip, name: Data)
    requires |z0.entries| == |z.entries| + 1 && !SeenAs(z0, |z.entries|, name)
    requires forall k | 0 <= k < |z.entries| :: Name(z0, k) == Name(z, k)
    ensures FreeFor(z0, name, |z.entries|) <==> forall k | 0 <= k < |z.entries| :: !SeenAs(z, k, name)
  {
    forall k | 0 <= k < |z.entries| ensures SeenAs(z0, k, name) <==> SeenAs(z, k, name) {
      assert Name(z0, k) == Name(z, k);
    }
  }

  /** A deletion succeeds for every index there is; nothing of the entry is left to be seen. */
  lemma DeleteDeletes(z: Zip, i: int)
    ensures var o := Apply(z, DeleteOp(i));
            if 0 <= i < |z.entries| then
              && o.ret == Ok(0) && OthersSame(z, o.z, i) && Name(o.z, i) == None
              && o.z.entries[i].state == Deleted && o.z.entries[i].source == None && o.z.entries[i].chComment == None
            else o == Outcome(z, Err(InvalidArgument))
  {
    hide Locate;
  }

  /**
     A replacement succeeds for every index there is. The entry has the new source
     and otherwise stays as it is seen; a deleted one comes back under its
     original name.
     */
  lemma ReplaceReplaces(z: Zip, i: int, source: Source)
    requires Inv(z)
    ensures var o := Apply(z, ReplaceOp(i, source));
            if 0 <= i < |z.entries| then
              && o.ret == Ok(0) && OthersSame(z, o.z, i)
              && Name(o.z, i) == (if z.entries[i].state == Deleted then OriginalName(z, i) else Name(z, i))
              && o.z.entries[i].state == (if i < Originals(z) then Replaced else Added)
              && o.z.entries[i].source == Some(source) && o.z.entries[i].chComment == z.entries[i].chComment
            else o == Outcome(z, Err(InvalidArgument))
  {
    if 0 <= i < |z.entries| { assert EntryOk(z, i); }
  }

  /**
     Undoing one entry succeeds exactly if there is such an entry and, if it was
     given a name, nobody else has its original one. Then it is as it was opened;
     otherwise nothing changes.
     */
  lemma UnchangeUndoes(z: Zip, i: int)
    ensures var (o, inRange) := (Apply(z, UnchangeOp(i)), 0 <= i < |z.entries|);
            && (o.ret.Ok?
                <==> inRange && (z.entries[i].chName.Some? && OriginalName(z, i).Some?
                                 ==> FreeFor(z, OriginalName(z, i).value, i)))
            && (o.ret.Ok? ==>
                  && o.ret == Ok(0) && OthersSame(z, o.z, i) && Name(o.z, i) == OriginalName(z, i)
                  && o.z.entries[i] == Entry(Unchanged, None, None, None))
            && (o.ret.Err? ==> o == Outcome(z, Err(if inRange then NameExists else InvalidArgument)))
  {
    hide Locate, FreeFor;
    if 0 <= i < |z.entries| && OriginalName(z, i).Some? {
      FreeIff(z, OriginalName(z, i).value, i);
    }
  }

  /** A file comment of up to 65536 bytes is kept with its entry. */
  lemma CommentComments(z: Zip, i: int, comment: Data)
    ensures var o := Apply(z, CommentOp(i, comment));
            if 0 <= i < |z.entries| && |comment| <= 65536 then
              && o.ret == Ok(0) && OthersSame(z, o.z, i) && Name(o.z, i) == Name(z, i)
              && o.z.entries[i].chComment == Some(comment)
              && o.z.entries[i].state == z.entries[i].state && o.z.entries[i].source == z.entries[i].source
            else o == Outcome(z, Err(InvalidArgument))
  {
  }

  /** A comment of the archive, of up to 65536 bytes, and undoing it leave the entries alone; undoing all does not. */
  lemma ArchiveCallsDo(z: Zip, comment: Data)
    ensures Apply(z, ArchiveCommentOp(comment))
         == if |comment| <= 65536 then Outcome(z.(chComment := Some(comment)), Ok(0))
            else Outcome(z, Err(InvalidArgument))
    ensures var o := Apply(z, UndoArchiveOp);
            o == Outcome(z.(chComment := None, chFlags := z.flags), Ok(0))
    ensures var o := Apply(z, UndoAllOp);
            && o == Outcome(z.(entries := o.z.entries, chComment := None, chFlags := z.flags), Ok(0))
            && |o.z.entries| == |z.entries|
            && forall i | 0 <= i < |z.entries| ::
                 Name(o.z, i) == OriginalName(z, i) && o.z.entries[i] == Entry(Unchanged, None, None, None)
  {
  }

  /** Flags are set or cleared as asked for, and no others. */
  lemma FlagsSet(z: Zip, bits: set<nat>, on: bool)
    ensures var o := Apply(z, FlagOp(bits, on));
            && o == Outcome(z.(chFlags := o.z.chFlags), Ok(0))
            && forall bit: nat :: bit in o.z.chFlags <==> if bit in bits then on else bit in z.chFlags
  {
  }

  /** The survivors are the entries that are not deleted, each once and in order. */
  lemma {:induction false} SurvivorsIff(entries: seq<Entry>, n: nat)
    requires n <= |entries|
    ensures var list := FileList(entries, n);
            && (forall i: nat :: i in list <==> i < n && entries[i].state != Deleted)
            && forall a, b | 0 <= a < b < |list| :: list[a] < list[b]
  {
    if n > 0 {
      SurvivorsIff(entries, n - 1);
      var rest := FileList(entries, n - 1);
      forall a | 0 <= a < |rest| ensures rest[a] < n - 1 {
        assert rest[a] in rest;
      }
    }
  }
}
