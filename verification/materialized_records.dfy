/** Materialized references in a destination space: records, their uniqueness, and the two indexes
    that a run keeps over them. */
module MaterializedRecords {
  import opened Wrappers
  import opened Text
  import opened Envelope
  import opened Composition

  datatype CollectionKind = Contacts | Tasks | CompositionKind

  /** The source key of a record. */
  datatype Key = Key(domainId: string, collection: CollectionKind, resourceId: string)

  datatype Record = Record(profile: string, key: Key, reference: Reference)

  /** The text of an object: a record of the supported version and type, or another text, which may
      mention the record type. */
  datatype Body = Blank | Text(mentions: bool) | Holds(record: Record)

  datatype Stored = Stored(spaceId: string, properties: seq<(string, string)>, body: Body, archived: bool)

  type Objects = map<string, Stored>

  predicate RecordOk(r: Record) {
    FingerprintOk(r.profile) && !IsEmptyName(r.key.domainId) && !IsEmptyName(r.key.resourceId) &&
    (forall c :: c in r.key.resourceId ==> !IsControl(c)) && r.key.collection != CompositionKind && Valid(r.reference)
  }

  function ReadBody(body: Body): Option<Record> {
    if body.Holds? && RecordOk(body.record) then Some(body.record) else None
  }

  predicate Mentions(body: Body) {
    body.Holds? || (body.Text? && body.mentions)
  }

  /** Exactly which texts are read as records. */
  lemma RecordReads(r: Record)
    ensures ReadBody(Holds(r)) == (if RecordOk(r) then Some(r) else None)
    ensures RecordOk(r) <==>
            |r.profile| == 64 && (forall c :: c in r.profile ==> IsHexDigit(c)) &&
            !IsBlankText(r.key.domainId) && !IsBlankText(r.key.resourceId) &&
            (forall c :: c in r.key.resourceId ==> !IsControl(c)) &&
            (r.key.collection == Contacts || r.key.collection == Tasks) && Valid(r.reference)
  {
    hide ValidateReference, IsEmptyName, IsControl, ByteLength;
    HexIsBytes(r.profile);
    EmptyNameIs(r.key.domainId);
    EmptyNameIs(r.key.resourceId);
  }

  // ----- live records -----------------------------------------------------

  predicate Live(objects: Objects, id: string) {
    id in objects && !objects[id].archived && ReadBody(objects[id].body).Some?
  }

  function RecordAt(objects: Objects, id: string): Record
    requires Live(objects, id)
  {
    objects[id].body.record
  }

  /** A live record of the profile. */
  predicate Belongs(objects: Objects, profile: string, id: string) {
    Live(objects, id) && RecordAt(objects, id).profile == profile
  }

  function IdentityAt(r: Record): Identity {
    IdentityOf(r.reference.foreign)
  }

  /** At most one live record of the profile per source key, and one per foreign identity. */
  ghost predicate Unique(objects: Objects, profile: string) {
    forall a, b :: Belongs(objects, profile, a) && Belongs(objects, profile, b) && a != b ==>
      RecordAt(objects, a).key != RecordAt(objects, b).key && IdentityAt(RecordAt(objects, a)) != IdentityAt(RecordAt(objects, b))
  }

  /** Nothing but live records of the profile was written. */
  ghost predicate WithinProfile(before: Objects, after: Objects, profile: string) {
    (forall id :: id in before ==> id in after) &&
    (forall id :: id in after && !(id in before && after[id] == before[id]) ==> Belongs(after, profile, id)) &&
    (forall id :: Belongs(before, profile, id) ==> Belongs(after, profile, id))
  }

  // ----- the indexes of a run ---------------------------------------------

  datatype Loaded = Loaded(id: string, stored: Stored, record: Record)

  datatype Index = Index(rows: seq<Loaded>, byKey: map<Key, nat>, byIdentity: map<Identity, nat>)

  predicate Shows(row: Loaded, objects: Objects, profile: string) {
    Belongs(objects, profile, row.id) && objects[row.id] == row.stored && RecordAt(objects, row.id) == row.record
  }

  predicate HasRow(rows: seq<Loaded>, id: string) {
    exists k :: 0 <= k < |rows| && rows[k].id == id
  }

  /** The rows are the live records of the profile, each once. */
  ghost predicate Mirrors(rows: seq<Loaded>, objects: Objects, profile: string) {
    (forall k :: 0 <= k < |rows| ==> Shows(rows[k], objects, profile)) &&
    (forall j, k :: 0 <= j < k < |rows| ==> rows[j].id != rows[k].id) &&
    (forall id :: Belongs(objects, profile, id) ==> HasRow(rows, id))
  }

  predicate DistinctKeys(rows: seq<Loaded>) {
    forall j, k :: 0 <= j < k < |rows| ==> rows[j].record.key != rows[k].record.key
  }

  /** The identity index leads to every row and nowhere else. */
  predicate IdentityIndexed(ix: Index) {
    (forall k :: 0 <= k < |ix.rows| ==>
      IdentityAt(ix.rows[k].record) in ix.byIdentity && ix.byIdentity[IdentityAt(ix.rows[k].record)] == k) &&
    (forall i :: i in ix.byIdentity ==> ix.byIdentity[i] < |ix.rows| && IdentityAt(ix.rows[ix.byIdentity[i]].record) == i)
  }

  /** The key index leads to every row whose key the run has not come to yet; it may also lead from
      a key to a row that has since been rewritten for another key. */
  predicate KeyIndexed(ix: Index, done: set<Key>) {
    (forall key :: key in ix.byKey ==> ix.byKey[key] < |ix.rows|) &&
    (forall k :: 0 <= k < |ix.rows| && ix.rows[k].record.key !in done ==>
      ix.rows[k].record.key in ix.byKey && ix.byKey[ix.rows[k].record.key] == k)
  }

  ghost predicate Tracks(ix: Index, objects: Objects, profile: string, done: set<Key>) {
    Mirrors(ix.rows, objects, profile) && DistinctKeys(ix.rows) && IdentityIndexed(ix) && KeyIndexed(ix, done)
  }

  lemma TrackedIsUnique(ix: Index, objects: Objects, profile: string, done: set<Key>)
    requires Tracks(ix, objects, profile, done)
    ensures Unique(objects, profile)
  {
    hide RecordOk, IdentityOf, KeyIndexed;
    forall a, b | Belongs(objects, profile, a) && Belongs(objects, profile, b) && a != b
      ensures RecordAt(objects, a).key != RecordAt(objects, b).key
      ensures IdentityAt(RecordAt(objects, a)) != IdentityAt(RecordAt(objects, b))
    {
      assert HasRow(ix.rows, a) && HasRow(ix.rows, b);
      var j :| 0 <= j < |ix.rows| && ix.rows[j].id == a;
      var k :| 0 <= k < |ix.rows| && ix.rows[k].id == b;
      assert Shows(ix.rows[j], objects, profile) && Shows(ix.rows[k], objects, profile);
    }
  }

  // ----- choosing a row ---------------------------------------------------

  function Lookup<K>(m: map<K, nat>, k: K): Option<nat> {
    if k in m then Some(m[k]) else None
  }

  /** The row for a source: by its key, or else by the foreign identity; `None` when they disagree. */
  function Selected(ix: Index, key: Key, identity: Identity): Option<Option<nat>> {
    match (Lookup(ix.byKey, key), Lookup(ix.byIdentity, identity))
    case (Some(left), Some(right)) => if left != right then None else Some(Some(left))
    case (Some(left), None) => Some(Some(left))
    case (None, Some(right)) => Some(Some(right))
    case (None, None) => Some(None)
  }

  function Rewritten(row: Loaded, record: Record): Loaded {
    Loaded(row.id, row.stored.(body := Holds(record), archived := false), record)
  }

  function Rewrite(ix: Index, k: nat, record: Record): Index
    requires k < |ix.rows|
  {
    ix.(rows := ix.rows[k := Rewritten(ix.rows[k], record)])
  }

  function Append(ix: Index, row: Loaded): Index {
    Index(ix.rows + [row], ix.byKey[row.record.key := |ix.rows|], ix.byIdentity[IdentityAt(row.record) := |ix.rows|])
  }

  predicate Fits(record: Record, profile: string, key: Key) {
    RecordOk(record) && record.profile == profile && record.key == key
  }

  /** A row selected for a key that the run comes to for the first time: no other row has that key. */
  lemma SelectedOwnsKey(ix: Index, done: set<Key>, key: Key, identity: Identity, k: nat)
    requires KeyIndexed(ix, done) && IdentityIndexed(ix) && key !in done && Selected(ix, key, identity) == Some(Some(k))
    ensures k < |ix.rows|
    ensures forall j :: 0 <= j < |ix.rows| && j != k ==> ix.rows[j].record.key != key
  {
  }

  lemma NoneSelected(ix: Index, done: set<Key>, key: Key, identity: Identity)
    requires KeyIndexed(ix, done) && IdentityIndexed(ix) && key !in done && Selected(ix, key, identity) == Some(None)
    ensures key !in ix.byKey && identity !in ix.byIdentity
    ensures forall j :: 0 <= j < |ix.rows| ==> ix.rows[j].record.key != key && IdentityAt(ix.rows[j].record) != identity
  {
  }

  lemma RewriteMirrors(ix: Index, objects: Objects, profile: string, k: nat, record: Record)
    requires Mirrors(ix.rows, objects, profile) && k < |ix.rows| && RecordOk(record) && record.profile == profile
    ensures var row := Rewritten(ix.rows[k], record);
            Mirrors(Rewrite(ix, k, record).rows, objects[row.id := row.stored], profile) &&
            WithinProfile(objects, objects[row.id := row.stored], profile)
  {
    hide RecordOk;
    var row := Rewritten(ix.rows[k], record);
    var rows, after := Rewrite(ix, k, record).rows, objects[row.id := row.stored];
    assert Belongs(after, profile, row.id);
    forall j | 0 <= j < |rows| ensures Shows(rows[j], after, profile) {
      assert Shows(ix.rows[j], objects, profile);
    }
    forall id | Belongs(after, profile, id) ensures HasRow(rows, id) {
      if id == row.id {
        assert rows[k].id == id;
      } else {
        assert Belongs(objects, profile, id) && HasRow(ix.rows, id);
        var j :| 0 <= j < |ix.rows| && ix.rows[j].id == id;
        assert rows[j].id == id;
      }
    }
    assert Shows(ix.rows[k], objects, profile);
  }

  /** Rewriting the selected row for its key, with the same identity, keeps everything in step. */
  lemma RewriteTracks(ix: Index, objects: Objects, profile: string, done: set<Key>, k: nat, record: Record)
    requires Tracks(ix, objects, profile, done) && Fits(record, profile, record.key) && record.key !in done
    requires Selected(ix, record.key, IdentityAt(record)) == Some(Some(k))
    requires k < |ix.rows| && IdentityAt(ix.rows[k].record) == IdentityAt(record)
    ensures var row := Rewritten(ix.rows[k], record);
            Tracks(Rewrite(ix, k, record), objects[row.id := row.stored], profile, done + {record.key}) &&
            WithinProfile(objects, objects[row.id := row.stored], profile)
  {
    hide RecordOk, IdentityOf, Mirrors, WithinProfile;
    RewriteMirrors(ix, objects, profile, k, record);
    SelectedOwnsKey(ix, done, record.key, IdentityAt(record), k);
  }

  lemma AppendMirrors(ix: Index, objects: Objects, profile: string, row: Loaded)
    requires Mirrors(ix.rows, objects, profile) && row.id !in objects
    requires Shows(row, objects[row.id := row.stored], profile)
    ensures Mirrors(Append(ix, row).rows, objects[row.id := row.stored], profile)
    ensures WithinProfile(objects, objects[row.id := row.stored], profile)
  {
    hide RecordOk;
    var rows, after := ix.rows + [row], objects[row.id := row.stored];
    forall j | 0 <= j < |rows| ensures Shows(rows[j], after, profile) && (j < |ix.rows| ==> rows[j].id in objects) {
      if j < |ix.rows| {
        assert Shows(ix.rows[j], objects, profile);
      }
    }
    forall id | Belongs(after, profile, id) ensures HasRow(rows, id) {
      if id == row.id {
        assert rows[|ix.rows|].id == id;
      } else {
        assert Belongs(objects, profile, id) && HasRow(ix.rows, id);
        var j :| 0 <= j < |ix.rows| && ix.rows[j].id == id;
        assert rows[j].id == id;
      }
    }
  }

  /** A new row, when none was selected, keeps everything in step. */
  lemma AppendTracks(ix: Index, objects: Objects, profile: string, done: set<Key>, row: Loaded)
    requires Tracks(ix, objects, profile, done) && row.id !in objects && row.record.key !in done
    requires Shows(row, objects[row.id := row.stored], profile)
    requires Selected(ix, row.record.key, IdentityAt(row.record)) == Some(None)
    ensures Tracks(Append(ix, row), objects[row.id := row.stored], profile, done + {row.record.key})
    ensures WithinProfile(objects, objects[row.id := row.stored], profile)
  {
    hide RecordOk, IdentityOf, Mirrors, WithinProfile, Shows;
    AppendMirrors(ix, objects, profile, row);
    NoneSelected(ix, done, row.record.key, IdentityAt(row.record));
  }
}
