/**
  The document store: the four account collections, a Mongoose document
  loaded from or created for one of them, and save.
*/
module Store {
  import opened Wrappers
  import opened Bcrypt
  import opened Accounts
  import AdminModel
  import AlumniModel
  import UserModel

  /** A document found by a query: its collection and its position there. */
  datatype Hit = Hit(kind: Kind, index: nat)

  /** The contents of the four account collections, each in natural order. */
  datatype Tables = Tables(admins: seq<Account>, alumni: seq<Account>,
                           faculty: seq<Account>, users: seq<Account>)
  {
    function Table(k: Kind): seq<Account>
    {
      match k
      case AdminKind => admins
      case AlumniKind => alumni
      case FacultyKind => faculty
      case UserKind => users
    }

    function With(k: Kind, rows: seq<Account>): (t: Tables)
      ensures t.Table(k) == rows
      ensures forall other: Kind :: other != k ==> t.Table(other) == Table(other)
    {
      match k
      case AdminKind => this.(admins := rows)
      case AlumniKind => this.(alumni := rows)
      case FacultyKind => this.(faculty := rows)
      case UserKind => this.(users := rows)
    }

    predicate Has(h: Hit)
    {
      h.index < |Table(h.kind)|
    }

    function At(h: Hit): Account
      requires Has(h)
    {
      Table(h.kind)[h.index]
    }

    /** The collections after the document at h is replaced by rec. */
    function Put(h: Hit, rec: Account): (t: Tables)
      requires Has(h)
      ensures t.Has(h) && t.At(h) == rec
      ensures |t.Table(h.kind)| == |Table(h.kind)|
      ensures forall i :: 0 <= i < |Table(h.kind)| && i != h.index ==>
        t.Table(h.kind)[i] == Table(h.kind)[i]
      ensures forall other: Kind :: other != h.kind ==> t.Table(other) == Table(other)
    {
      With(h.kind, Table(h.kind)[h.index := rec])
    }
  }

  /** The schema of each kind; Faculty's is not part of this model and is given. */
  function SchemaOf(k: Kind, faculty: KindSchema): KindSchema
  {
    match k
    case AdminKind => AdminModel.Schema
    case AlumniKind => AlumniModel.Schema
    case FacultyKind => faculty
    case UserKind => UserModel.Schema
  }

  /** findOne(filter): the first document, in collection order, that the filter
      accepts; None when there is none. */
  function FindFirst(rows: seq<Account>, accepts: Account -> bool): (r: Option<nat>)
    ensures r.Some? ==> r.value < |rows| && accepts(rows[r.value])
    ensures r.Some? ==> forall j :: 0 <= j < r.value ==> !accepts(rows[j])
    ensures r.None? ==> forall j :: 0 <= j < |rows| ==> !accepts(rows[j])
    decreases |rows|
  {
    if |rows| == 0 then None
    else if accepts(rows[0]) then Some(0)
    else
      match FindFirst(rows[1..], accepts)
      case Some(i) => Some(i + 1)
      case None => None
  }

  /** Replacing a document by one the filter judges the same way does not change
      what findOne returns. */
  lemma {:induction false} FindFirstAfterUpdate(rows: seq<Account>, accepts: Account -> bool, i: nat, rec: Account)
    requires i < |rows| && accepts(rec) == accepts(rows[i])
    ensures FindFirst(rows[i := rec], accepts) == FindFirst(rows, accepts)
    decreases |rows|
  {
    if |rows| > 0 && i > 0 {
      assert rows[i := rec][1..] == rows[1..][i - 1 := rec];
      FindFirstAfterUpdate(rows[1..], accepts, i - 1, rec);
    }
  }

  predicate UniqueEmails(rows: seq<Account>)
  {
    forall i, j :: 0 <= i < j < |rows| ==> rows[i].email != rows[j].email
  }

  predicate UniqueIds(rows: seq<Account>)
  {
    forall i, j :: 0 <= i < j < |rows| ==> rows[i].id != rows[j].id
  }

  /** A document belongs in collection k: its profile is of that kind, it
      carries no `otpExpires` where the schema has no such path, and a User
      carries no createdAt or updatedAt (models/User.js declares neither and
      has no timestamps). */
  predicate Fits(k: Kind, faculty: KindSchema, rec: Account)
  {
    && ProfileKind(rec.profile) == k
    && (!SchemaOf(k, faculty).storesOtpExpires ==> rec.otpExpires.None?)
    && (k == UserKind ==> rec.createdAt.None? && rec.updatedAt.None?)
  }

  /** One collection's invariant: every document fits, `_id` is unique, and so
      is `email` where the schema declares it unique (Admin, Alumni, User). */
  predicate TableValid(rows: seq<Account>, k: Kind, faculty: KindSchema)
  {
    && (forall i :: 0 <= i < |rows| ==> Fits(k, faculty, rows[i]))
    && UniqueIds(rows)
    && (k != FacultyKind ==> UniqueEmails(rows))
  }

  predicate TablesValid(t: Tables, faculty: KindSchema)
  {
    && TableValid(t.admins, AdminKind, faculty)
    && TableValid(t.alumni, AlumniKind, faculty)
    && TableValid(t.faculty, FacultyKind, faculty)
    && TableValid(t.users, UserKind, faculty)
  }

  lemma TablesValidAt(t: Tables, faculty: KindSchema, k: Kind)
    requires TablesValid(t, faculty)
    ensures TableValid(t.Table(k), k, faculty)
  {
  }

  /** Two versions of a document that agree on what the invariant constrains. */
  predicate SameIdentity(a: Account, b: Account)
  {
    a.id == b.id && a.email == b.email && ProfileKind(a.profile) == ProfileKind(b.profile)
  }

  /** Replacing a document by one with the same identity keeps the invariant. */
  lemma PutKeepsValid(t: Tables, faculty: KindSchema, h: Hit, rec: Account)
    requires TablesValid(t, faculty) && t.Has(h)
    requires SameIdentity(rec, t.At(h)) && Fits(h.kind, faculty, rec)
    ensures TablesValid(t.Put(h, rec), faculty)
  {
    var rows := t.Table(h.kind);
    var rows' := rows[h.index := rec];
    TablesValidAt(t, faculty, h.kind);
    assert TableValid(rows', h.kind, faculty) by {
      forall i, j | 0 <= i < j < |rows'| ensures rows'[i].id != rows'[j].id {
        assert rows'[i].id == rows[i].id && rows'[j].id == rows[j].id;
      }
      forall i, j | 0 <= i < j < |rows'| ensures h.kind != FacultyKind ==> rows'[i].email != rows'[j].email {
        assert rows'[i].email == rows[i].email && rows'[j].email == rows[j].email;
      }
    }
    assert t.Put(h, rec) == t.With(h.kind, rows');
  }

  /** Appending a document whose `_id` (and, where unique, email) is new keeps
      the invariant. */
  lemma AppendKeepsValid(t: Tables, faculty: KindSchema, k: Kind, rec: Account)
    requires TablesValid(t, faculty) && Fits(k, faculty, rec)
    requires forall i :: 0 <= i < |t.Table(k)| ==> t.Table(k)[i].id != rec.id
    requires k != FacultyKind ==> forall i :: 0 <= i < |t.Table(k)| ==> t.Table(k)[i].email != rec.email
    ensures TablesValid(t.With(k, t.Table(k) + [rec]), faculty)
  {
    TablesValidAt(t, faculty, k);
    var rows' := t.Table(k) + [rec];
    assert TableValid(rows', k, faculty);
  }

  /** The collection without its i-th document, the others in their order. */
  function Removed(rows: seq<Account>, i: nat): (r: seq<Account>)
    requires i < |rows|
    ensures |r| == |rows| - 1
    ensures forall j :: 0 <= j < i ==> r[j] == rows[j]
    ensures forall j :: i <= j < |r| ==> r[j] == rows[j + 1]
  {
    rows[..i] + rows[i + 1..]
  }

  /** Replacing a document by one that keeps its `_id` and kind, and whose
      email no other document of a uniquely indexed collection holds, keeps
      the invariant. */
  lemma ReplaceKeepsValid(t: Tables, faculty: KindSchema, h: Hit, rec: Account)
    requires TablesValid(t, faculty) && t.Has(h)
    requires rec.id == t.At(h).id && Fits(h.kind, faculty, rec)
    requires h.kind != FacultyKind ==>
      forall j :: 0 <= j < |t.Table(h.kind)| && j != h.index ==> t.Table(h.kind)[j].email != rec.email
    ensures TablesValid(t.Put(h, rec), faculty)
  {
    var rows := t.Table(h.kind);
    var rows' := rows[h.index := rec];
    TablesValidAt(t, faculty, h.kind);
    assert TableValid(rows', h.kind, faculty) by {
      forall i, j | 0 <= i < j < |rows'| ensures rows'[i].id != rows'[j].id {
        assert rows'[i].id == rows[i].id && rows'[j].id == rows[j].id;
      }
      forall i, j | 0 <= i < j < |rows'| ensures h.kind != FacultyKind ==> rows'[i].email != rows'[j].email {
        if i != h.index && j != h.index {
          assert rows'[i].email == rows[i].email && rows'[j].email == rows[j].email;
        }
      }
    }
    assert t.Put(h, rec) == t.With(h.kind, rows');
  }

  /** Removing a document keeps the invariant. */
  lemma RemoveKeepsValid(t: Tables, faculty: KindSchema, h: Hit)
    requires TablesValid(t, faculty) && t.Has(h)
    ensures TablesValid(t.With(h.kind, Removed(t.Table(h.kind), h.index)), faculty)
  {
    var rows := t.Table(h.kind);
    var rows' := Removed(rows, h.index);
    TablesValidAt(t, faculty, h.kind);
    assert TableValid(rows', h.kind, faculty) by {
      forall i | 0 <= i < |rows'| ensures Fits(h.kind, faculty, rows'[i]) {
        if i >= h.index { assert rows'[i] == rows[i + 1]; }
      }
      forall i, j | 0 <= i < j < |rows'|
        ensures rows'[i].id != rows'[j].id
        ensures h.kind != FacultyKind ==> rows'[i].email != rows'[j].email
      {
        var i0 := if i < h.index then i else i + 1;
        var j0 := if j < h.index then j else j + 1;
        assert rows'[i] == rows[i0] && rows'[j] == rows[j0] && i0 < j0;
      }
    }
  }

  /**
    A Mongoose document: the values of one account, which the handlers assign
    to in place, and whether its password path has been modified since it was
    loaded (a new document counts all its given paths as modified).
  */
  class Document {
    const kind: Kind
    const schema: KindSchema
    /** The position of the stored document this one was loaded from; None for
        a document made with `new Model(...)`. */
    const slot: Option<nat>
    var record: Account
    var passwordModified: bool

    /** A document as findOne returns it. */
    constructor Load(kind: Kind, schema: KindSchema, index: nat, stored: Account)
      ensures this.kind == kind && this.schema == schema && slot == Some(index)
      ensures record == stored && !passwordModified
    {
      this.kind := kind;
      this.schema := schema;
      slot := Some(index);
      record := stored;
      passwordModified := false;
    }

    /** `new Model(values)`. */
    constructor Create(kind: Kind, schema: KindSchema, values: Account)
      ensures this.kind == kind && this.schema == schema && slot.None?
      ensures record == values && passwordModified
    {
      this.kind := kind;
      this.schema := schema;
      slot := None;
      record := values;
      passwordModified := true;
    }

    /** doc.password = value */
    method SetPassword(value: Secret)
      modifies this
      ensures record == old(record).(password := value) && passwordModified
    {
      record := record.(password := value);
      passwordModified := true;
    }

    /** doc.otp = value (undefined unsets it) */
    method SetOtp(value: Option<string>)
      modifies this
      ensures record == old(record).(otp := value) && passwordModified == old(passwordModified)
    {
      record := record.(otp := value);
    }

    /** doc.otpExpires = value. On a schema without that path the value lives
        only on the in-memory object; save does not persist it. */
    method SetOtpExpires(value: Option<int>)
      modifies this
      ensures record == old(record).(otpExpires := value) && passwordModified == old(passwordModified)
    {
      record := record.(otpExpires := value);
    }

    /** The pre('save') hook of models/Admin.js and models/Alumni.js: leave the
        password alone unless it was modified, otherwise replace it by its
        digest. Schemas without the hook leave it alone. */
    method PreSave()
      modifies this
      ensures record == old(record).(password := HookedPassword(schema, old(record).password, old(passwordModified)))
      ensures passwordModified == old(passwordModified)
    {
      if !schema.hashesOnSave || !passwordModified {
        return;
      }
      record := record.(password := Hash(record.password));
    }

    /** What reaching the collection does to the document: undeclared paths are
        dropped, timestamps are set, and no path counts as modified any more. */
    method Persist(now: int, isNew: bool)
      modifies this
      ensures record == old(record).(
        otpExpires := if schema.storesOtpExpires then old(record).otpExpires else None,
        createdAt := if schema.timestamps && isNew then Some(now) else old(record).createdAt,
        updatedAt := if schema.timestamps then Some(now) else old(record).updatedAt)
      ensures !passwordModified
    {
      if !schema.storesOtpExpires {
        record := record.(otpExpires := None);
      }
      if schema.timestamps {
        record := record.(updatedAt := Some(now));
        if isNew {
          record := record.(createdAt := Some(now));
        }
      }
      passwordModified := false;
    }
  }

  /** The database: the four collections as they are stored. */
  class Database {
    var tables: Tables
    const faculty: KindSchema

    ghost predicate Valid()
      reads this
    {
      TablesValid(tables, faculty)
    }

    constructor (faculty: KindSchema, initial: Tables)
      requires TablesValid(initial, faculty)
      ensures Valid() && tables == initial && this.faculty == faculty
    {
      this.faculty := faculty;
      tables := initial;
    }

    /** Load the document a query found. */
    method Fetch(h: Hit) returns (doc: Document)
      requires tables.Has(h)
      ensures fresh(doc) && doc.kind == h.kind && doc.schema == SchemaOf(h.kind, faculty)
      ensures doc.slot == Some(h.index) && doc.record == tables.At(h) && !doc.passwordModified
    {
      doc := new Document.Load(h.kind, SchemaOf(h.kind, faculty), h.index, tables.At(h));
    }

    /** doc.save() for a loaded document: run the hook, then replace the stored
        document by what is persisted. */
    method Save(doc: Document, now: int)
      requires Valid()
      requires doc.slot.Some? && tables.Has(Hit(doc.kind, doc.slot.value))
      requires doc.schema == SchemaOf(doc.kind, faculty)
      requires SameIdentity(doc.record, tables.At(Hit(doc.kind, doc.slot.value)))
      requires doc.kind == UserKind ==> doc.record.createdAt.None? && doc.record.updatedAt.None?
      modifies this, doc
      ensures Valid()
      ensures doc.record == Saved(doc.schema, old(doc.record), old(doc.passwordModified), false, now)
      ensures tables == old(tables).Put(Hit(doc.kind, doc.slot.value), doc.record)
      ensures !doc.passwordModified
    {
      doc.PreSave();
      doc.Persist(now, false);
      var h := Hit(doc.kind, doc.slot.value);
      PutKeepsValid(tables, faculty, h, doc.record);
      tables := tables.Put(h, doc.record);
    }

    /** Model.findByIdAndUpdate: replace the stored document in one step; no
        document is loaded, so no hook and no validator runs. The unique email
        index has been checked by the caller. */
    method Replace(h: Hit, rec: Account)
      requires Valid() && tables.Has(h)
      requires rec.id == tables.At(h).id && Fits(h.kind, faculty, rec)
      requires h.kind != FacultyKind ==>
        forall j :: 0 <= j < |tables.Table(h.kind)| && j != h.index ==> tables.Table(h.kind)[j].email != rec.email
      modifies this
      ensures Valid()
      ensures tables == old(tables).Put(h, rec)
    {
      ReplaceKeepsValid(tables, faculty, h, rec);
      tables := tables.Put(h, rec);
    }

    /** Model.findByIdAndDelete on a document that exists. */
    method Remove(h: Hit)
      requires Valid() && tables.Has(h)
      modifies this
      ensures Valid()
      ensures tables == old(tables).With(h.kind, Removed(old(tables).Table(h.kind), h.index))
    {
      RemoveKeepsValid(tables, faculty, h);
      tables := tables.With(h.kind, Removed(tables.Table(h.kind), h.index));
    }

    /** doc.save() for a new document: run the hook, then append what is
        persisted. The caller has made sure the `_id` and, where the schema
        declares it unique, the email are new. */
    method Insert(doc: Document, now: int)
      requires Valid()
      requires doc.slot.None? && doc.schema == SchemaOf(doc.kind, faculty)
      requires ProfileKind(doc.record.profile) == doc.kind
      requires doc.kind == UserKind ==> doc.record.createdAt.None? && doc.record.updatedAt.None?
      requires forall i :: 0 <= i < |tables.Table(doc.kind)| ==> tables.Table(doc.kind)[i].id != doc.record.id
      requires doc.kind != FacultyKind ==>
        forall i :: 0 <= i < |tables.Table(doc.kind)| ==> tables.Table(doc.kind)[i].email != doc.record.email
      modifies this, doc
      ensures Valid()
      ensures doc.record == Saved(doc.schema, old(doc.record), old(doc.passwordModified), true, now)
      ensures tables == old(tables).With(doc.kind, old(tables).Table(doc.kind) + [doc.record])
      ensures !doc.passwordModified
    {
      doc.PreSave();
      doc.Persist(now, true);
      AppendKeepsValid(tables, faculty, doc.kind, doc.record);
      tables := tables.With(doc.kind, tables.Table(doc.kind) + [doc.record]);
    }
  }
}
