/** The edits of an open archive: which entries were added, replaced, renamed or deleted. */
module ZipArchive {
  import opened Results
  import opened ZipBytes
  import opened ZipFormat
  import opened ZipDirectory

  /** What a data source reports about itself. */
  datatype Stat = Stat(mtime: int, size: nat, crc: U32, compMethod: U16)

  /** A data source; a command that fails is a missing `stat` or a flag. */
  datatype Source = Source(stat: Option<Stat>, opens: bool, data: Data, readFails: bool, closes: bool)

  datatype State = Unchanged | Deleted | Replaced | Added | Renamed

  /** `struct zip_entry`; a comment length of -1 is a missing comment. */
  datatype Entry = Entry(state: State, source: Option<Source>, chName: Option<Data>, chComment: Option<Data>)

  const FRESH_ENTRY := Entry(Unchanged, None, None, None)

  /** The fields of `struct zip` that edits read or write. */
  datatype Zip = Zip(cdir: Option<Cdir>, entries: seq<Entry>, chComment: Option<Data>,
                     flags: set<nat>, chFlags: set<nat>)

  /** The bit of `ZIP_AFL_TORRENT` in the archive flags. */
  const TORRENT := 0

  predicate DataChanged(e: Entry) { e.state == Replaced || e.state == Added }

  /** The number of entries of the archive as it was opened. */
  function Originals(z: Zip): nat { if z.cdir.Some? then |z.cdir.value.entries| else 0 }

  function OriginalName(z: Zip, i: nat): Option<Data> {
    if i < Originals(z) then Some(z.cdir.value.entries[i].name) else None
  }

  /** `_zip_get_name(za, i, 0)` */
  function Name(z: Zip, i: nat): Option<Data>
    requires i < |z.entries|
  {
    if z.entries[i].state == Deleted then None
    else if z.entries[i].chName.Some? then z.entries[i].chName
    else OriginalName(z, i)
  }

  predicate SeenAs(z: Zip, i: nat, name: Data) { i < |z.entries| && Name(z, i) == Some(name) }

  /** What every edit keeps. */
  predicate EntryOk(z: Zip, i: nat)
    requires i < |z.entries|
  {
    var e := z.entries[i];
    && (e.source.Some? <==> DataChanged(e))
    && (e.state == Renamed ==> e.chName.Some? && i < Originals(z))
    && (e.state == Unchanged || e.state == Deleted ==> e.chName.None?)
    && (e.state == Added ==> i >= Originals(z))
    && (e.state == Replaced ==> i < Originals(z))
  }

  predicate Inv(z: Zip) {
    Originals(z) <= |z.entries| && forall i | 0 <= i < |z.entries| :: EntryOk(z, i)
  }

  predicate Distinct(z: Zip) {
    forall i, j | 0 <= i < j < |z.entries| :: Name(z, i).Some? ==> Name(z, i) != Name(z, j)
  }

  /** As `zip_open` leaves it. */
  predicate Opened(z: Zip) {
    && |z.entries| == Originals(z)
    && (forall i | 0 <= i < |z.entries| :: z.entries[i] == FRESH_ENTRY)
    && z.chComment == None && z.chFlags == z.flags
  }

  // ----- the edits, as functions of the state

  /** `i` is where `_zip_name_locate` finds `name`: its first bearer, or -1. */
  predicate LocatedAt(z: Zip, name: Data, i: int) {
    && -1 <= i < |z.entries|
    && (i >= 0 ==> SeenAs(z, i, name))
    && (forall j | 0 <= j < |z.entries| && SeenAs(z, j, name) :: 0 <= i <= j)
  }

  function Locate(z: Zip, name: Data, from: nat): (i: int)
    requires from <= |z.entries|
    ensures i == -1 || (from <= i < |z.entries| && SeenAs(z, i, name))
    ensures forall j | from <= j < |z.entries| && SeenAs(z, j, name) :: 0 <= i <= j
    decreases |z.entries| - from
  {
    if from == |z.entries| then -1
    else if SeenAs(z, from, name) then from
    else Locate(z, name, from + 1)
  }

  datatype Outcome = Outcome(z: Zip, ret: Result<int, ZipError>)

  function SetName(z: Zip, i: nat, name: Data): Outcome
    requires i < |z.entries|
  {
    var at := Locate(z, name, 0);
    if at != -1 && at != i then Outcome(z, Err(NameExists))
    else if at == i then Outcome(z, Ok(0))
    else
      var e := z.entries[i];
      var state := if e.state == Unchanged then Renamed else e.state;
      Outcome(z.(entries := z.entries[i := e.(state := state, chName := Some(name))]), Ok(0))
  }

  function UnchangeData(e: Entry): Entry {
    e.(source := None, state := if e.chName.Some? then Renamed else Unchanged)
  }

  function Unchange(z: Zip, i: int, allowDuplicates: bool): Outcome {
    if i < 0 || i >= |z.entries| then Outcome(z, Err(InvalidArgument))
    else
      var e := z.entries[i];
      var original := OriginalName(z, i);
      var at := if original.Some? then Locate(z, original.value, 0) else -1;
      if e.chName.Some? && !allowDuplicates && at != -1 && at != i then Outcome(z, Err(NameExists))
      else Outcome(z.(entries := z.entries[i := FRESH_ENTRY]), Ok(0))
  }

  /** `_zip_entry_new` */
  function WithNewEntry(z: Zip): Zip {
    z.(entries := z.entries + [FRESH_ENTRY])
  }

  function ReplaceAt(z: Zip, i: nat, name: Option<Data>, source: Source): Outcome
    requires i < |z.entries|
  {
    var z1 := z.(entries := z.entries[i := UnchangeData(z.entries[i])]);
    var named := if name.Some? then SetName(z1, i, name.value) else Outcome(z1, Ok(0));
    if named.ret.Err? then named
    else
      var e := named.z.entries[i];
      var state := if i >= Originals(z) then Added else Replaced;
      Outcome(named.z.(entries := named.z.entries[i := e.(state := state, source := Some(source))]), Ok(i))
  }

  predicate IsDir(name: Data) { name != [] && name[|name| - 1] == 0x2F }

  function RenameTo(z: Zip, i: int, name: Data): Outcome {
    if i < 0 || i >= |z.entries| || name == [] then Outcome(z, Err(InvalidArgument))
    else if z.entries[i].state == Deleted then Outcome(z, Err(EntryDeleted))
    else if Name(z, i).None? then Outcome(z, Err(InvalidArgument))
    else if IsDir(name) != IsDir(Name(z, i).value) then Outcome(z, Err(InvalidArgument))
    else SetName(z, i, name)
  }

  /** What `zip_unchange_all` leaves. */
  function AllUndone(z: Zip): Zip {
    z.(entries := seq(|z.entries|, _ => FRESH_ENTRY), chComment := None, chFlags := z.flags)
  }

  datatype Op =
    | AddOp(name: Data, source: Source)
    | RenameOp(i: int, name: Data)
    | DeleteOp(i: int)
    | ReplaceOp(i: int, source: Source)
    | UnchangeOp(i: int)
    | CommentOp(i: int, comment: Data)
    | ArchiveCommentOp(comment: Data)
    | FlagOp(bits: set<nat>, on: bool)
    | UndoArchiveOp
    | UndoAllOp

  function Apply(z: Zip, op: Op): Outcome {
    match op
    case AddOp(name, source) =>
      ReplaceAt(WithNewEntry(z), |z.entries|, Some(name), source)
    case RenameOp(i, name) => RenameTo(z, i, name)
    case DeleteOp(i) =>
      var u := Unchange(z, i, true);
      if u.ret.Err? then u
      else Outcome(u.z.(entries := u.z.entries[i := u.z.entries[i].(state := Deleted)]), Ok(0))
    case ReplaceOp(i, source) =>
      if i < 0 || i >= |z.entries| then Outcome(z, Err(InvalidArgument))
      else
        var r := ReplaceAt(z, i, None, source);
        if r.ret.Err? then r else Outcome(r.z, Ok(0))
    case UnchangeOp(i) => Unchange(z, i, false)
    case CommentOp(i, comment) =>
      if i < 0 || i >= |z.entries| || |comment| > MAXCOMLEN then Outcome(z, Err(InvalidArgument))
      else Outcome(z.(entries := z.entries[i := z.entries[i].(chComment := Some(comment))]), Ok(0))
    case ArchiveCommentOp(comment) =>
      if |comment| > MAXCOMLEN then Outcome(z, Err(InvalidArgument))
      else Outcome(z.(chComment := Some(comment)), Ok(0))
    case FlagOp(bits, on) => Outcome(z.(chFlags := if on then z.chFlags + bits else z.chFlags - bits), Ok(0))
    case UndoArchiveOp => Outcome(z.(chComment := None, chFlags := z.flags), Ok(0))
    case UndoAllOp => Outcome(AllUndone(z), Ok(0))
  }

  function Run(z: Zip, ops: seq<Op>): Zip
    decreases |ops|
  {
    if ops == [] then z else Run(Apply(z, ops[0]).z, ops[1..])
  }

  // ----- what runs keep

  lemma EntryChanged(z: Zip, i: nat, e: Entry)
    requires Inv(z) && i < |z.entries|
    requires EntryOk(z.(entries := z.entries[i := e]), i)
    ensures Inv(z.(entries := z.entries[i := e]))
  {
    var z' := z.(entries := z.entries[i := e]);
    forall k | 0 <= k < |z.entries| ensures EntryOk(z', k) {
      assert EntryOk(z, k);
    }
  }

  lemma SetNameKeepsInv(z: Zip, i: nat, name: Data)
    requires Inv(z) && i < |z.entries| && Name(z, i).Some?
    ensures Inv(SetName(z, i, name).z)
  {
    var e := z.entries[i];
    assert EntryOk(z, i);
    EntryChanged(z, i, e.(state := if e.state == Unchanged then Renamed else e.state, chName := Some(name)));
  }

  lemma ReplaceKeepsInv(z: Zip, i: nat, name: Option<Data>, source: Source)
    requires Inv(z) && i < |z.entries| && (name.Some? ==> z.entries[i] == FRESH_ENTRY)
    ensures Inv(ReplaceAt(z, i, name, source).z)
  {
    hide Inv;
    var z1 := z.(entries := z.entries[i := UnchangeData(z.entries[i])]);
    var named := if name.Some? then SetName(z1, i, name.value) else Outcome(z1, Ok(0));
    var e := named.z.entries[i].(state := if i >= Originals(z) then Added else Replaced, source := Some(source));
    EntryChanged(z, i, e);
    if named.ret.Ok? {
      assert ReplaceAt(z, i, name, source).z.entries == z.entries[i := e];
    } else {
      assert z1.entries == z.entries;
    }
  }

  /** Every edit, successful or not, keeps the states, sources and changed names in step. */
  lemma ApplyKeepsInv(z: Zip, op: Op)
    requires Inv(z)
    ensures Inv(Apply(z, op).z)
  {
    match op
    case AddOp(name, source) =>
      var z0 := WithNewEntry(z);
      assert Inv(z0) by {
        assert forall i | 0 <= i < |z.entries| :: EntryOk(z, i) ==> EntryOk(z0, i);
      }
      ReplaceKeepsInv(z0, |z.entries|, Some(name), source);
    case RenameOp(i, name) =>
      if 0 <= i < |z.entries| && Name(z, i).Some? {
        SetNameKeepsInv(z, i, name);
      }
    case DeleteOp(i) =>
      if 0 <= i < |z.entries| {
        EntryChanged(z, i, FRESH_ENTRY.(state := Deleted));
        assert z.entries[i := FRESH_ENTRY][i := FRESH_ENTRY.(state := Deleted)]
            == z.entries[i := FRESH_ENTRY.(state := Deleted)];
      }
    case ReplaceOp(i, source) =>
      if 0 <= i < |z.entries| {
        ReplaceKeepsInv(z, i, None, source);
      }
    case UnchangeOp(i) =>
      if 0 <= i < |z.entries| {
        EntryChanged(z, i, FRESH_ENTRY);
      }
    case CommentOp(i, comment) =>
      if 0 <= i < |z.entries| {
        assert EntryOk(z, i);
        EntryChanged(z, i, z.entries[i].(chComment := Some(comment)));
      }
    case _ =>
      assert forall i | 0 <= i < |z.entries| :: EntryOk(z, i) ==> EntryOk(Apply(z, op).z, i);
  }

  lemma {:induction false} RunKeepsInv(z: Zip, ops: seq<Op>)
    requires Inv(z)
    ensures Inv(Run(z, ops))
    decreases |ops|
  {
    if ops != [] {
      ApplyKeepsInv(z, ops[0]);
      RunKeepsInv(Apply(z, ops[0]).z, ops[1..]);
    }
  }

  /** The edit makes one deleted entry visible again. */
  predicate Revives(z: Zip, op: Op) {
    match op
    case ReplaceOp(i, _) => 0 <= i < |z.entries| && z.entries[i].state == Deleted
    case UnchangeOp(i) => 0 <= i < |z.entries| && z.entries[i].state == Deleted
    case _ => false
  }

  /** The names in the archive as it was opened. */
  predicate OriginalsDistinct(z: Zip) {
    forall i, j | 0 <= i < j < Originals(z) :: OriginalName(z, i) != OriginalName(z, j)
  }

  /** Entry `i` was deleted, and its original name belongs to another entry by now. */
  predicate NameTaken(z: Zip, i: int) {
    && 0 <= i < |z.entries| && z.entries[i].state == Deleted && i < Originals(z)
    && Locate(z, OriginalName(z, i).value, 0) != -1
  }

  /** The edits that lead to two entries of one name. */
  predicate Clashes(z: Zip, op: Op) {
    match op
    case ReplaceOp(i, _) => NameTaken(z, i)
    case UnchangeOp(i) => NameTaken(z, i)
    case UndoAllOp => !OriginalsDistinct(z)
    case _ => false
  }

  predicate NeverClashes(z: Zip, ops: seq<Op>)
    decreases |ops|
  {
    ops == [] || (!Clashes(z, ops[0]) && NeverClashes(Apply(z, ops[0]).z, ops[1..]))
  }

  predicate NeverRevives(z: Zip, ops: seq<Op>)
    decreases |ops|
  {
    ops == [] || (!Revives(z, ops[0]) && NeverRevives(Apply(z, ops[0]).z, ops[1..]))
  }

  /** Only entry `i` may have changed its name, and to one that no other entry has. */
  lemma OneNameChanged(z: Zip, z': Zip, i: nat)
    requires Distinct(z) && |z'.entries| == |z.entries| && i < |z.entries|
    requires forall k | 0 <= k < |z.entries| && k != i :: Name(z', k) == Name(z, k)
    requires Name(z', i).Some? ==> forall k | 0 <= k < |z.entries| && k != i :: !SeenAs(z, k, Name(z', i).value)
    ensures Distinct(z')
  {
    forall a, b | 0 <= a < b < |z.entries| && Name(z', a).Some? ensures Name(z', a) != Name(z', b) {
      if a == i {
        assert !SeenAs(z, b, Name(z', i).value);
      } else if b == i && Name(z', i).Some? {
        assert !SeenAs(z, a, Name(z', i).value);
      }
    }
  }

  lemma SetNameDistinct(z: Zip, i: nat, name: Data)
    requires i < |z.entries| && z.entries[i].state != Deleted && Distinct(z)
    ensures Distinct(SetName(z, i, name).z)
  {
    var z' := SetName(z, i, name).z;
    if Locate(z, name, 0) == -1 {
      assert forall k | 0 <= k < |z.entries| :: !SeenAs(z, k, name);
      OneNameChanged(z, z', i);
    }
  }

  lemma UnchangeDistinct(z: Zip, i: int, allowDuplicates: bool)
    requires Inv(z) && Distinct(z)
    requires 0 <= i < |z.entries| ==> z.entries[i].state != Deleted && !allowDuplicates
    ensures Distinct(Unchange(z, i, allowDuplicates).z)
  {
    var z' := Unchange(z, i, allowDuplicates).z;
    if 0 <= i < |z.entries| && z' != z {
      assert EntryOk(z, i);
      var original := OriginalName(z, i);
      if original.Some? && z.entries[i].chName.None? {
        assert Name(z, i) == original;
      } else if original.Some? {
        assert forall k | 0 <= k < |z.entries| && k != i :: !SeenAs(z, k, original.value) by {
          forall k | 0 <= k < |z.entries| && SeenAs(z, k, original.value) ensures k == i {
            var at := Locate(z, original.value, 0);
            assert SeenAs(z, at, original.value);
          }
        }
      }
      OneNameChanged(z, z', i);
    }
  }

  lemma ReplaceDistinct(z: Zip, i: nat, name: Option<Data>, source: Source)
    requires i < |z.entries| && z.entries[i].state != Deleted && Inv(z) && Distinct(z)
    ensures Distinct(ReplaceAt(z, i, name, source).z)
  {
    hide Inv, Locate, EntryOk;
    var z1 := z.(entries := z.entries[i := UnchangeData(z.entries[i])]);
    assert forall k | 0 <= k < |z.entries| :: Name(z1, k) == Name(z, k);
    if name.Some? {
      SetNameDistinct(z1, i, name.value);
    }
    var z2 := if name.Some? then SetName(z1, i, name.value).z else z1;
    var z' := ReplaceAt(z, i, name, source).z;
    assert forall k | 0 <= k < |z.entries| :: Name(z', k) == Name(z2, k);
  }

  /** Without a revived entry among them, edits of single entries keep the names distinct. */
  lemma EntryEditKeepsDistinct(z: Zip, op: Op)
    requires Inv(z) && Distinct(z) && !Revives(z, op) && !op.UndoAllOp?
    ensures Distinct(Apply(z, op).z)
  {
    match op
    case AddOp(name, source) =>
      var z0 := WithNewEntry(z);
      assert forall k | 0 <= k < |z.entries| :: Name(z0, k) == Name(z, k) && (EntryOk(z, k) ==> EntryOk(z0, k));
      assert Name(z0, |z.entries|) == None;
      ReplaceDistinct(z0, |z.entries|, Some(name), source);
    case RenameOp(i, name) =>
      if 0 <= i < |z.entries| && z.entries[i].state != Deleted {
        SetNameDistinct(z, i, name);
      }
    case DeleteOp(i) =>
      if 0 <= i < |z.entries| {
        OneNameChanged(z, Apply(z, op).z, i);
      }
    case ReplaceOp(i, source) =>
      if 0 <= i < |z.entries| {
        ReplaceDistinct(z, i, None, source);
      }
    case UnchangeOp(i) =>
      UnchangeDistinct(z, i, false);
    case CommentOp(_, _) | ArchiveCommentOp(_) | FlagOp(_, _) | UndoArchiveOp =>
      assert forall k | 0 <= k < |z.entries| :: Name(Apply(z, op).z, k) == Name(z, k);
    case UndoAllOp =>
  }

  /** Bringing back a deleted entry keeps the names distinct exactly if nobody took its name meanwhile. */
  lemma ReviveDistinctIff(z: Zip, z': Zip, i: nat)
    requires Inv(z) && Distinct(z) && i < |z.entries| == |z'.entries| && z.entries[i].state == Deleted
    requires forall k | 0 <= k < |z.entries| && k != i :: Name(z', k) == Name(z, k)
    requires Name(z', i) == OriginalName(z, i)
    ensures Distinct(z') <==> !NameTaken(z, i)
  {
    if !NameTaken(z, i) {
      assert i < Originals(z) ==> forall k | 0 <= k < |z.entries| :: !SeenAs(z, k, OriginalName(z, i).value);
      OneNameChanged(z, z', i);
    } else {
      var name := OriginalName(z, i).value;
      var at := Locate(z, name, 0);
      assert Name(z', at) == Some(name) && Name(z', i) == Some(name);
      var a, b := if at < i then at else i, if at < i then i else at;
      assert 0 <= a < b < |z'.entries| && Name(z', a) == Name(z', b);
    }
  }

  lemma UndoAllDistinctIff(z: Zip)
    requires Originals(z) <= |z.entries|
    ensures Distinct(AllUndone(z)) <==> OriginalsDistinct(z)
  {
    var u := AllUndone(z);
    assert forall k | 0 <= k < |z.entries| :: Name(u, k) == OriginalName(z, k);
    if Distinct(u) {
      forall i, j | 0 <= i < j < Originals(z) ensures OriginalName(z, i) != OriginalName(z, j) {
        assert Name(u, i).Some?;
      }
    }
  }

  /** Exactly when an edit keeps the visible names pairwise distinct. */
  lemma ApplyDistinctIff(z: Zip, op: Op)
    requires Inv(z) && Distinct(z)
    ensures Distinct(Apply(z, op).z) <==> !Clashes(z, op)
  {
    hide Distinct, OriginalsDistinct, Locate, AllUndone;
    if op.UndoAllOp? {
      UndoAllDistinctIff(z);
    } else if Revives(z, op) {
      var i := op.i;
      assert EntryOk(z, i);
      ReviveDistinctIff(z, Apply(z, op).z, i);
    } else {
      EntryEditKeepsDistinct(z, op);
    }
  }

  /** Over a whole run: the names are distinct after every edit exactly if none of them clashes. */
  lemma {:induction false} RunDistinctIff(z: Zip, ops: seq<Op>)
    requires Inv(z) && Distinct(z)
    ensures NeverClashes(z, ops) <==> forall k | 0 <= k <= |ops| :: Distinct(Run(z, ops[..k]))
    decreases |ops|
  {
    hide Inv, Distinct, Clashes, Apply;
    if ops == [] {
      assert ops[..0] == [];
    } else {
      var z1, rest := Apply(z, ops[0]).z, ops[1..];
      ApplyKeepsInv(z, ops[0]);
      ApplyDistinctIff(z, ops[0]);
      forall k | 0 < k <= |ops| ensures Run(z, ops[..k]) == Run(z1, rest[..k - 1]) {
        assert ops[..k][0] == ops[0] && ops[..k][1..] == rest[..k - 1];
      }
      assert ops[..0] == [] && Run(z, ops[..0]) == z;
      assert rest[..0] == [] && Run(z1, rest[..0]) == z1;
      if Distinct(z1) {
        RunDistinctIff(z1, rest);
        if forall k | 0 <= k <= |rest| :: Distinct(Run(z1, rest[..k])) {
          forall k | 0 <= k <= |ops| ensures Distinct(Run(z, ops[..k])) {
            assert k > 0 ==> Distinct(Run(z1, rest[..k - 1]));
          }
        } else {
          var k :| 0 <= k <= |rest| && !Distinct(Run(z1, rest[..k]));
          assert Run(z, ops[..k + 1]) == Run(z1, rest[..k]);
        }
      } else {
        assert Run(z, ops[..1]) == z1;
      }
    }
  }

  /** The names stay pairwise distinct in every run that revives no deleted entry, if the opened archive's were. */
  lemma {:induction false} RunKeepsDistinct(z: Zip, ops: seq<Op>)
    requires Inv(z) && Distinct(z) && OriginalsDistinct(z) && NeverRevives(z, ops)
    ensures Distinct(Run(z, ops))
    decreases |ops|
  {
    hide Inv, Distinct, OriginalsDistinct;
    if ops != [] {
      ApplyKeepsInv(z, ops[0]);
      ApplyDistinctIff(z, ops[0]);
      SameOriginals(z, Apply(z, ops[0]).z);
      RunKeepsDistinct(Apply(z, ops[0]).z, ops[1..]);
    }
  }

  lemma SameOriginals(z: Zip, z': Zip)
    requires z'.cdir == z.cdir && OriginalsDistinct(z)
    ensures OriginalsDistinct(z')
  {
    assert forall i: nat :: OriginalName(z', i) == OriginalName(z, i);
  }

  lemma OpenedDistinct(z: Zip)
    requires Opened(z)
    ensures Inv(z) && (Distinct(z) <==> OriginalsDistinct(z))
  {
    UndoAllDistinctIff(z);
    assert AllUndone(z).entries == z.entries;
  }

  /** Deleting an entry, adding another of its name and bringing it back, in either way, makes a duplicate. */
  lemma DuplicateByRevival(z: Zip, i: nat, s: Source, t: Source)
    requires Opened(z) && Distinct(z) && i < Originals(z)
    ensures var ops := [DeleteOp(i), AddOp(OriginalName(z, i).value, s)];
            && Distinct(Run(z, ops))
            && !Distinct(Run(z, ops + [UnchangeOp(i)])) && !Distinct(Run(z, ops + [ReplaceOp(i, t)]))
  {
    hide Distinct, Inv, Apply, Run, Opened, NameTaken;
    var delete, add := DeleteOp(i), AddOp(OriginalName(z, i).value, s);
    var z1 := Apply(z, delete).z;
    var z2 := Apply(z1, add).z;
    OpenedDistinct(z);
    TakesName(z, i, s);
    ApplyKeepsInv(z, delete);
    ApplyKeepsInv(z1, add);
    ApplyDistinctIff(z, delete);
    ApplyDistinctIff(z1, add);
    RunOf(z, delete, add, UnchangeOp(i));
    RunOf(z, delete, add, ReplaceOp(i, t));
    ApplyDistinctIff(z2, UnchangeOp(i));
    ApplyDistinctIff(z2, ReplaceOp(i, t));
  }

  lemma RunOf(z: Zip, a: Op, b: Op, c: Op)
    ensures Run(z, [a, b]) == Apply(Apply(z, a).z, b).z
    ensures Run(z, [a, b] + [c]) == Apply(Apply(Apply(z, a).z, b).z, c).z
  {
    hide Apply;
    RunAppend(z, [a], [b]);
    RunAppend(z, [a, b], [c]);
    RunOne(z, a);
    RunOne(Apply(z, a).z, b);
    RunOne(Apply(Apply(z, a).z, b).z, c);
    assert [a] + [b] == [a, b];
  }

  lemma RunOne(z: Zip, op: Op)
    ensures Run(z, [op]) == Apply(z, op).z
  {
    hide Apply;
    assert [op][1..] == [];
  }

  lemma {:induction false} RunAppend(z: Zip, a: seq<Op>, b: seq<Op>)
    ensures Run(z, a + b) == Run(Run(z, a), b)
    decreases |a|
  {
    hide Apply;
    if a == [] {
      assert a + b == b;
    } else {
      assert (a + b)[1..] == a[1..] + b;
      RunAppend(Apply(z, a[0]).z, a[1..], b);
    }
  }

  lemma TakesName(z: Zip, i: nat, s: Source)
    requires Opened(z) && Distinct(z) && i < Originals(z)
    ensures var name := OriginalName(z, i).value;
            NameTaken(Apply(Apply(z, DeleteOp(i)).z, AddOp(name, s)).z, i)
  {
    var n, name := |z.entries|, OriginalName(z, i).value;
    var z1 := Apply(z, DeleteOp(i)).z;
    var z0 := WithNewEntry(z1);
    assert z0.entries[n := UnchangeData(z0.entries[n])] == z0.entries;
    forall k | 0 <= k < |z0.entries| ensures !SeenAs(z0, k, name) {
      assert k < n && k != i ==> Name(z, k) == OriginalName(z, k) && Name(z, i) == OriginalName(z, i);
    }
    var z2 := Apply(z1, AddOp(name, s)).z;
    assert Locate(z0, name, 0) == -1;
    assert SeenAs(z2, n, name) && z2.entries[i].state == Deleted;
  }

  /** Every entry that was not deleted still has a name. */
  predicate Named(z: Zip) {
    forall i | 0 <= i < |z.entries| && z.entries[i].state != Deleted :: Name(z, i).Some?
  }

  // ----- undoing everything

  /** `_zip_changed`: some entry is not as it was, or a comment or a flag was set. */
  predicate IsChanged(z: Zip) {
    || z.chComment.Some? || z.chFlags != z.flags
    || exists i | 0 <= i < |z.entries| :: EntryTouched(z.entries[i])
  }

  predicate EntryTouched(e: Entry) { e.state != Unchanged || e.chComment.Some? }

  /** In every reachable state `_zip_changed` reports exactly whether undoing everything would do something. */
  lemma ChangedIffUndoable(z: Zip)
    requires Inv(z)
    ensures IsChanged(z) <==> z != AllUndone(z)
  {
    if !IsChanged(z) {
      forall i | 0 <= i < |z.entries| ensures z.entries[i] == FRESH_ENTRY {
        assert EntryOk(z, i) && !EntryTouched(z.entries[i]);
      }
      assert z.entries == AllUndone(z).entries;
    } else if i :| 0 <= i < |z.entries| && EntryTouched(z.entries[i]) {
      assert AllUndone(z).entries[i] == FRESH_ENTRY;
    }
  }

  lemma {:induction false} RunKeepsOriginals(z: Zip, ops: seq<Op>)
    ensures Run(z, ops).cdir == z.cdir && |Run(z, ops).entries| >= |z.entries|
    decreases |ops|
  {
    if ops != [] {
      RunKeepsOriginals(Apply(z, ops[0]).z, ops[1..]);
    }
  }

  /**
     Whatever was done to an opened archive, deletions and revivals included:
     undoing everything reports no change and shows every original name again.
     */
  lemma UndoRestores(z: Zip, ops: seq<Op>)
    requires Opened(z)
    ensures var u := AllUndone(Run(z, ops));
            && !IsChanged(u)
            && |u.entries| >= |z.entries|
            && forall i | 0 <= i < |z.entries| :: Name(u, i) == Name(z, i) == OriginalName(z, i)
  {
    RunKeepsOriginals(z, ops);
  }

  // ----- the archive object

  /** `struct zip` with the calls that edit it. */
  class Archive {
    var cdir: Option<Cdir>
    var entries: seq<Entry>
    var chComment: Option<Data>
    var flags: set<nat>
    var chFlags: set<nat>

    function View(): Zip
      reads this
    {
      Zip(cdir, entries, chComment, flags, chFlags)
    }

    /** As `zip_open` sets it up once the directory is found. */
    constructor (cdir: Option<Cdir>, flags: set<nat>)
      ensures Opened(View()) && Inv(View()) && this.cdir == cdir && this.flags == flags
    {
      this.cdir, this.chComment, this.flags, this.chFlags := cdir, None, flags, flags;
      this.entries := seq(if cdir.Some? then |cdir.value.entries| else 0, _ => FRESH_ENTRY);
    }

    /** `_zip_name_locate` with flags 0 */
    method NameLocate(name: Data) returns (at: int)
      ensures at == Locate(View(), name, 0) && LocatedAt(View(), name, at)
    {
      for i := 0 to |entries|
        invariant Locate(View(), name, 0) == Locate(View(), name, i)
      {
        if Name(View(), i) == Some(name) {
          return i;
        }
      }
      at := -1;
    }

    /** `_zip_set_name` */
    method SetNameOf(i: nat, name: Data) returns (r: Result<int, ZipError>)
      requires i < |entries|
      modifies this`entries
      ensures Outcome(View(), r) == SetName(old(View()), i, name)
    {
      var at := NameLocate(name);
      if at != -1 && at != i {
        return Err(NameExists);
      }
      if at == i {
        return Ok(0);
      }
      if entries[i].state == Unchanged {
        entries := entries[i := entries[i].(state := Renamed)];
      }
      entries := entries[i := entries[i].(chName := Some(name))];
      r := Ok(0);
    }

    /** `_zip_unchange` */
    method UnchangeAt(i: int, allowDuplicates: bool) returns (r: Result<int, ZipError>)
      modifies this`entries
      ensures Outcome(View(), r) == Unchange(old(View()), i, allowDuplicates)
    {
      if i < 0 || i >= |entries| {
        return Err(InvalidArgument);
      }
      if entries[i].chName.Some? {
        if !allowDuplicates {
          var original := OriginalName(View(), i);
          var at := -1;
          if original.Some? {
            at := NameLocate(original.value);
          }
          if at != -1 && at != i {
            return Err(NameExists);
          }
        }
        entries := entries[i := entries[i].(chName := None)];
      }
      entries := entries[i := entries[i].(chComment := None)];
      entries := entries[i := UnchangeData(entries[i])];
      r := Ok(0);
    }

    /** `_zip_replace`; an index of -1 asks for a new entry. */
    method ReplaceWith(i: int, name: Option<Data>, source: Source) returns (r: Result<int, ZipError>)
      requires -1 <= i < |entries|
      modifies this`entries
      ensures Outcome(View(), r)
           == if i == -1 then ReplaceAt(WithNewEntry(old(View())), |old(entries)|, name, source)
              else ReplaceAt(old(View()), i, name, source)
    {
      var idx := i;
      if i == -1 {
        entries := entries + [FRESH_ENTRY];
        idx := |entries| - 1;
      }
      entries := entries[idx := UnchangeData(entries[idx])];
      if name.Some? {
        var named := SetNameOf(idx, name.value);
        if named.Err? {
          return named;
        }
      }
      var state := if cdir.None? || idx >= |cdir.value.entries| then Added else Replaced;
      entries := entries[idx := entries[idx].(state := state, source := Some(source))];
      r := Ok(idx);
    }

    /** Any of the editing calls. */
    method Edit(op: Op) returns (r: Result<int, ZipError>)
      modifies this
      ensures Outcome(View(), r) == Apply(old(View()), op)
      ensures old(Inv(View())) ==> Inv(View())
      ensures old(Inv(View()) && Distinct(View())) ==> (Distinct(View()) <==> !Clashes(old(View()), op))
    {
      hide Inv, Distinct, Clashes;
      ghost var z := View();
      match op {
        case AddOp(name, source) => r := ReplaceWith(-1, Some(name), source);
        case RenameOp(i, name) => r := Rename(i, name);
        case DeleteOp(i) => r := Delete(i);
        case ReplaceOp(i, source) => r := Replace(i, source);
        case UnchangeOp(i) => r := UnchangeAt(i, false);
        case CommentOp(i, comment) => r := SetFileComment(i, comment);
        case ArchiveCommentOp(comment) => r := SetArchiveComment(comment);
        case FlagOp(bits, on) => SetArchiveFlag(bits, on); r := Ok(0);
        case UndoArchiveOp => UnchangeArchive(); r := Ok(0);
        case UndoAllOp =>
          var ret := UnchangeAll();
          r := Ok(ret);
      }
      if Inv(z) {
        ApplyKeepsInv(z, op);
        if Distinct(z) {
          ApplyDistinctIff(z, op);
        }
      }
    }

    method Rename(i: int, name: Data) returns (r: Result<int, ZipError>)
      modifies this`entries
      ensures Outcome(View(), r) == Apply(old(View()), RenameOp(i, name))
      ensures r.Ok? ==> 0 <= i < |entries| == |old(entries)| && Name(View(), i) == Some(name)
      ensures r.Err? ==> View() == old(View())
    {
      if i >= |entries| || i < 0 || name == [] {
        return Err(InvalidArgument);
      }
      if entries[i].state == Deleted {
        return Err(EntryDeleted);
      }
      var current := Name(View(), i);
      if current.None? {
        return Err(InvalidArgument);
      }
      if IsDir(name) != IsDir(current.value) {
        return Err(InvalidArgument);
      }
      r := SetNameOf(i, name);
    }

    method Delete(i: int) returns (r: Result<int, ZipError>)
      modifies this`entries
      ensures Outcome(View(), r) == Apply(old(View()), DeleteOp(i))
    {
      r := UnchangeAt(i, true);
      if r.Ok? {
        entries := entries[i := entries[i].(state := Deleted)];
      }
    }

    method Replace(i: int, source: Source) returns (r: Result<int, ZipError>)
      modifies this`entries
      ensures Outcome(View(), r) == Apply(old(View()), ReplaceOp(i, source))
    {
      if i < 0 || i >= |entries| {
        return Err(InvalidArgument);
      }
      r := ReplaceWith(i, None, source);
      if r.Ok? {
        r := Ok(0);
      }
    }

    method SetFileComment(i: int, comment: Data) returns (r: Result<int, ZipError>)
      modifies this`entries
      ensures Outcome(View(), r) == Apply(old(View()), CommentOp(i, comment))
    {
      if i < 0 || i >= |entries| || |comment| > MAXCOMLEN {
        return Err(InvalidArgument);
      }
      entries := entries[i := entries[i].(chComment := Some(comment))];
      r := Ok(0);
    }

    /** `zip_set_archive_comment` */
    method SetArchiveComment(comment: Data) returns (r: Result<int, ZipError>)
      modifies this`chComment
      ensures Outcome(View(), r) == Apply(old(View()), ArchiveCommentOp(comment))
    {
      if |comment| > MAXCOMLEN {
        return Err(InvalidArgument);
      }
      chComment := Some(comment);
      r := Ok(0);
    }

    /** `zip_set_archive_flag` */
    method SetArchiveFlag(bits: set<nat>, on: bool)
      modifies this`chFlags
      ensures View() == Apply(old(View()), FlagOp(bits, on)).z
    {
      if on {
        chFlags := chFlags + bits;
      } else {
        chFlags := chFlags - bits;
      }
    }

    /** `zip_unchange_archive` */
    method UnchangeArchive()
      modifies this`chComment, this`chFlags
      ensures View() == Apply(old(View()), UndoArchiveOp).z
    {
      chComment := None;
      chFlags := flags;
    }

    /** `zip_unchange_all` */
    method UnchangeAll() returns (ret: int)
      modifies this
      ensures ret == 0 && View() == AllUndone(old(View()))
    {
      ret := 0;
      for i := 0 to |entries|
        invariant ret == 0 && |entries| == |old(entries)|
        invariant forall k | 0 <= k < i :: entries[k] == FRESH_ENTRY
        invariant cdir == old(cdir) && flags == old(flags)
      {
        var u := UnchangeAt(i, true);
        if u.Err? {
          ret := -1;
        }
      }
      UnchangeArchive();
      assert entries == AllUndone(old(View())).entries;
    }

    /** `_zip_changed`; the second result is the number of entries that survive. */
    method Changed() returns (changed: bool, survivors: nat)
      ensures changed <==> IsChanged(View())
      ensures survivors == |FileList(entries, |entries|)|
    {
      changed, survivors := chComment.Some? || chFlags != flags, 0;
      for i := 0 to |entries|
        invariant survivors == |FileList(entries, i)|
        invariant changed <==> chComment.Some? || chFlags != flags || exists k | 0 <= k < i :: EntryTouched(entries[k])
      {
        if EntryTouched(entries[i]) {
          changed := true;
        }
        if entries[i].state != Deleted {
          survivors := survivors + 1;
        }
      }
    }
  }

  /** The indices below `n` of the entries that are not deleted, in order. */
  function FileList(entries: seq<Entry>, n: nat): (list: seq<nat>)
    requires n <= |entries|
    ensures |list| <= n
  {
    if n == 0 then []
    else FileList(entries, n - 1) + if entries[n - 1].state == Deleted then [] else [n - 1]
  }
}
