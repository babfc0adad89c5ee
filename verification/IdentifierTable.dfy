/**
 The content of the registry of identifiers of compiler2/Identifier.cc, as a value: records that hold the
 names of an identifier in C++, ASN.1 and TTCN-3, shared and counted by handles and by the entries of three
 maps; what every operation makes of it; and what every run keeps.
 */
module IdentifierTable {
  import opened Options
  import opened Results
  import opened NameMangling

  /** `id_t` */
  datatype Kind = Name | Asn | Ttcn

  /** `id_data_t`; an empty name has not been determined yet. */
  datatype Record = Record(refCount: nat, name: string, asnname: string, ttcnname: string) {
    function In(kind: Kind): string {
      match kind
      case Name => name
      case Asn => asnname
      case Ttcn => ttcnname
    }

    function With(kind: Kind, s: string): (r: Record)
      ensures r.refCount == refCount && r.In(kind) == s && forall k: Kind :: k != kind ==> r.In(k) == In(k)
    {
      match kind
      case Name => this.(name := s)
      case Asn => this.(asnname := s)
      case Ttcn => this.(ttcnname := s)
    }
  }

  /** A key of one of the three maps. */
  datatype Key = Key(kind: Kind, name: string)

  /** A row of the table of keywords; a language in which the name is missing has an invalid name. */
  datatype Keyword = Keyword(name: string, asnname: Option<string>, ttcnname: Option<string>) {
    predicate Usable() {
      name != "" && asnname != Some("") && ttcnname != Some("")
    }

    /** Its record before it is entered anywhere. */
    function Initial(): Record {
      Record(1, name,
             if asnname.Some? then asnname.value else INVALID,
             if ttcnname.Some? then ttcnname.value else INVALID)
    }

    /** The keys under which it is entered, unless another keyword is. */
    function Keys(): set<Key> {
      {Key(Name, name)} + (if asnname.Some? then {Key(Asn, asnname.value)} else {}) +
      (if ttcnname.Some? then {Key(Ttcn, ttcnname.value)} else {})
    }
  }

  const INVALID := "<invalid>"

  // ---------------------------------------------------------------- names

  /** The C++ name of an ASN.1 or TTCN-3 name. */
  function CppName(kind: Kind, p: string): string
    requires kind != Name
  {
    if kind.Asn? then AsnName(p) else Double(p, '_')
  }

  lemma NoName()
    ensures CppName(Ttcn, "") == "" && LanguageName(Ttcn, "").Fatal? && LanguageName(Asn, "").Fatal?
  {
  }

  /** The ASN.1 or TTCN-3 name of a C++ name. */
  function LanguageName(kind: Kind, p: string): Result<string>
    requires kind != Name
  {
    if Strip(p, '_') == "" then Fatal
    else if kind.Asn? then Ok(Substitute(Collapse(Strip(p, '_'), '-'), '_', "-"))
    else Ok(Collapse(Strip(p, '_'), '_'))
  }

  lemma LanguageNameNotEmpty(kind: Kind, p: string)
    requires kind != Name && LanguageName(kind, p).Ok?
    ensures LanguageName(kind, p).value != "" && p != ""
  {
    hide Collapse, Substitute, StripLeft, StripRight;
    NoName();
    var t := Strip(p, '_');
    NamesNotEmpty(t, '_');
    NamesNotEmpty(t, '-');
    NamesNotEmpty(Collapse(t, '-'), '-');
  }

  /** Not the name of a field of a field: "&&" and the like. */
  predicate Regular(p: string) {
    !(|p| >= 2 && p[0] == '&' && p[1] == '&')
  }

  // ---------------------------------------------------------------- counting references

  /** The keys of a map that refer to `r`. */
  function Referrers<K>(m: map<K, nat>, r: nat): set<K> {
    set k | k in m && m[k] == r
  }

  function Refs<K>(m: map<K, nat>, r: nat): nat {
    |Referrers(m, r)|
  }

  lemma ReferrersAdd<K>(m: map<K, nat>, k: K, r: nat, x: nat)
    requires k !in m
    ensures Referrers(m[k := r], x) == if x == r then Referrers(m, x) + {k} else Referrers(m, x)
  {
    var n := m[k := r];
    if x == r {
      assert forall j :: j in Referrers(n, x) <==> j in Referrers(m, x) || j == k;
    } else {
      assert forall j :: j in Referrers(n, x) <==> j in Referrers(m, x);
    }
  }

  lemma RefsAdd<K>(m: map<K, nat>, k: K, r: nat)
    requires k !in m
    ensures forall x :: Refs(m[k := r], x) == Refs(m, x) + (if x == r then 1 else 0)
  {
    hide Referrers;
    forall x ensures Refs(m[k := r], x) == Refs(m, x) + (if x == r then 1 else 0) {
      NotYet(m, k, x);
      ReferrersAdd(m, k, r, x);
      AddOne(Referrers(m, x), k);
    }
  }

  lemma NotYet<K>(m: map<K, nat>, k: K, x: nat)
    requires k !in m
    ensures k !in Referrers(m, x)
  {
  }

  lemma AddOne<K>(s: set<K>, k: K)
    requires k !in s
    ensures |s + {k}| == |s| + 1
  {
  }

  lemma RefsRemove<K>(m: map<K, nat>, k: K)
    requires k in m
    ensures forall x :: Refs(m, x) == Refs(m - {k}, x) + (if x == m[k] then 1 else 0)
  {
    hide Refs;
    var rest := m - {k};
    RefsAdd(rest, k, m[k]);
    assert m == rest[k := m[k]];
  }

  /** Nothing refers to what has no references. */
  lemma RefsNone<K>(m: map<K, nat>, x: nat)
    ensures Refs(m, x) == 0 <==> forall k :: k in m ==> m[k] != x
  {
    var s := Referrers(m, x);
    if k :| k in m && m[k] == x {
      assert k in s;
    } else {
      assert s == {};
    }
  }

  /** Every record is counted once for each handle and each entry that refers to it, and none dangles. */
  ghost predicate Counted(records: map<nat, Record>, entries: map<Key, nat>, handles: map<nat, nat>) {
    (forall h :: h in handles ==> handles[h] in records) &&
    (forall k :: k in entries ==> entries[k] in records) &&
    forall r :: r in records ==> records[r].refCount == Refs(handles, r) + Refs(entries, r) > 0
  }

  function Changed(records: map<nat, Record>, r: nat, refCount: nat): map<nat, Record>
    requires r in records
  {
    records[r := records[r].(refCount := refCount)]
  }

  lemma CountNew(records: map<nat, Record>, entries: map<Key, nat>, handles: map<nat, nat>, h: nat, r: nat, rec: Record)
    requires Counted(records, entries, handles) && h !in handles && r !in records && rec.refCount == 1
    ensures Counted(records[r := rec], entries, handles[h := r])
  {
    hide Refs;
    RefsAdd(handles, h, r);
    RefsNone(handles, r);
    RefsNone(entries, r);
  }

  lemma CountHold(records: map<nat, Record>, entries: map<Key, nat>, handles: map<nat, nat>, h: nat, r: nat)
    requires Counted(records, entries, handles) && h !in handles && r in records
    ensures Counted(Changed(records, r, records[r].refCount + 1), entries, handles[h := r])
  {
    hide Refs;
    RefsAdd(handles, h, r);
  }

  lemma CountEnter(records: map<nat, Record>, entries: map<Key, nat>, handles: map<nat, nat>, k: Key, r: nat)
    requires Counted(records, entries, handles) && k !in entries && r in records
    ensures Counted(Changed(records, r, records[r].refCount + 1), entries[k := r], handles)
  {
    hide Refs;
    RefsAdd(entries, k, r);
  }

  /** What `delete_this` leaves. */
  function Dropped(records: map<nat, Record>, r: nat): map<nat, Record>
    requires r in records
  {
    if records[r].refCount <= 1 then records - {r} else Changed(records, r, records[r].refCount - 1)
  }

  lemma CountRelease(records: map<nat, Record>, entries: map<Key, nat>, handles: map<nat, nat>, h: nat)
    requires Counted(records, entries, handles) && h in handles
    ensures Counted(Dropped(records, handles[h]), entries, handles - {h})
  {
    hide Refs;
    RefsRemove(handles, h);
    RefsNone(handles - {h}, handles[h]);
    RefsNone(entries, handles[h]);
  }

  lemma CountRemove(records: map<nat, Record>, entries: map<Key, nat>, handles: map<nat, nat>, k: Key)
    requires Counted(records, entries, handles) && k in entries
    ensures Counted(Dropped(records, entries[k]), entries - {k}, handles)
  {
    hide Refs;
    RefsRemove(entries, k);
    RefsNone(entries - {k}, entries[k]);
    RefsNone(handles, entries[k]);
  }

  lemma CountRename(records: map<nat, Record>, entries: map<Key, nat>, handles: map<nat, nat>, r: nat,
                    kind: Kind, s: string)
    requires Counted(records, entries, handles) && r in records
    ensures Counted(records[r := records[r].With(kind, s)], entries, handles)
  {
    hide Refs;
  }

  /** The keys under which keywords are entered. */
  function AllKeys(keywords: seq<Keyword>): set<Key> {
    if keywords == [] then {} else AllKeys(keywords[..|keywords| - 1]) + keywords[|keywords| - 1].Keys()
  }

  // ---------------------------------------------------------------- contents

  /** Names that leave nothing for C++ are those of ASN.1 fields. */
  predicate LeavesNothing(rec: Record) {
    rec.asnname != "" && rec.ttcnname != "" && AsnName(rec.asnname) == ""
  }

  const NO_NAME := Key(Name, "")

  /** What a registry holds; addresses and handles are numbers below `next`. */
  datatype Content =
    Content(records: map<nat, Record>, entries: map<Key, nat>, handles: map<nat, nat>, next: nat, alive: bool)
  {
    ghost predicate Balanced() {
      Counted(records, entries, handles) &&
      (forall h :: h in handles ==> h < next) && (forall r :: r in records ==> r < next)
    }

    /** The key of every entry is the corresponding name of its record. */
    ghost predicate Matches() {
      forall k :: k in entries ==> entries[k] in records && records[entries[k]].In(k.kind) == k.name
    }

    /** What holds of the keys in any case: all but the empty one are names. */
    ghost predicate Orderly() {
      && (forall k :: k in entries ==> entries[k] in records)
      && (forall k :: k in entries && k != NO_NAME ==> k.name != "" && records[entries[k]].In(k.kind) == k.name)
      && (forall k :: k in entries && k.kind.Ttcn? ==> records[entries[k]].name != "")
      && (forall r :: r in records && records[r].name == "" ==> records[r].ttcnname != "")
      && (NO_NAME in entries ==> LeavesNothing(records[entries[NO_NAME]]))
    }

    ghost predicate Good() {
      Balanced() && Orderly()
    }

    /** Between operations; there is nothing without an instance. */
    ghost predicate Valid() {
      Good() && (!alive ==> entries == map[] && handles == map[])
    }

    /** The record that is entered under the empty C++ name has another one. */
    ghost predicate Lost() {
      NO_NAME in entries && entries[NO_NAME] in records && records[entries[NO_NAME]].name != ""
    }

    /** Every record has a C++ name, and nothing is entered under the empty one. */
    ghost predicate Named() {
      NO_NAME !in entries && forall r :: r in records ==> records[r].name != ""
    }

    // -------------------------------------------------------------- steps

    /** A new record, with a handle to it */
    function Allocate(rec: Record): Content {
      this.(records := records[next := rec], handles := handles[next := next], next := next + 1)
    }

    /** A handle starts to refer to a record. */
    function Attach(h: nat, r: nat): Content
      requires r in records
    {
      this.(records := Changed(records, r, records[r].refCount + 1), handles := handles[h := r])
    }

    /** A new handle to a record */
    function Hold(r: nat): Content
      requires r in records
    {
      Attach(next, r).(next := next + 1)
    }

    /** A handle is given up. */
    function Release(h: nat): Content
      requires h in handles && handles[h] in records
    {
      this.(records := Dropped(records, handles[h]), handles := handles - {h})
    }

    /** One more reference, by an entry */
    function Enter(k: Key, r: nat): Content
      requires r in records
    {
      this.(records := Changed(records, r, records[r].refCount + 1), entries := entries[k := r])
    }

    function EnterFree(k: Key, r: nat): (c: Content)
      requires r in records
      ensures r in c.records && c.handles == handles && c.next == next
    {
      if k in entries then this else Enter(k, r)
    }

    function Rename(kind: Kind, s: string, r: nat): Content
      requires r in records
    {
      this.(records := records[r := records[r].With(kind, s)])
    }

    /** A name is set and entered. */
    function Learn(kind: Kind, s: string, r: nat): Content
      requires r in records
    {
      Rename(kind, s, r).Enter(Key(kind, s), r)
    }

    // -------------------------------------------------------------- the instance

    /** The names of a keyword, as far as they are free */
    function EnterNames(kw: Keyword, r: nat): (c: Content)
      requires r in records
      ensures r in c.records && c.handles == handles && c.next == next
    {
      var c := EnterFree(Key(Name, kw.name), r);
      var d := if kw.asnname.Some? then c.EnterFree(Key(Asn, kw.asnname.value), r) else c;
      if kw.ttcnname.Some? then d.EnterFree(Key(Ttcn, kw.ttcnname.value), r) else d
    }

    function AddKeyword(kw: Keyword): Content {
      Allocate(kw.Initial()).EnterNames(kw, next).Release(next)
    }

    function AddKeywords(keywords: seq<Keyword>): Content {
      if keywords == [] then this else AddKeywords(keywords[..|keywords| - 1]).AddKeyword(keywords[|keywords| - 1])
    }

    function Open(keywords: seq<Keyword>): Content {
      if alive then this else this.(alive := true).AddKeywords(keywords)
    }

    // -------------------------------------------------------------- identifiers

    /** A record of its own, entered under one name unless that is not wanted */
    function Own(k: Key, rec: Record, dontreg: bool): Content {
      if dontreg then Allocate(rec) else Allocate(rec).Enter(k, next)
    }

    /** A record that was found by its C++ name */
    function Found(kind: Kind, p: string, r: nat): Content
      requires r in records
    {
      if records[r].In(kind) == "" then Hold(r).Learn(kind, p, r) else Hold(r)
    }

    /** A new record, entered under both names unless that is not wanted */
    function Fresh(kind: Kind, p: string, name: string, dontreg: bool): Content {
      var c := Allocate(Record(1, name, if kind.Asn? then p else "", if kind.Ttcn? then p else ""));
      if dontreg then c else c.Enter(Key(Name, name), next).Enter(Key(kind, p), next)
    }

    /** The C++ name of an ASN.1 field: that of its name without the ampersand */
    function FieldName(p: string): Result<string>
      requires p != "" && (Key(Asn, p[1..]) in entries ==> entries[Key(Asn, p[1..])] in records)
    {
      var k := Key(Asn, p[1..]);
      if k in entries then Ok(records[entries[k]].name) else if |p| == 1 then Fatal else Ok(AsnName(p[1..]))
    }

    /** A new identifier; its handle is `next`. */
    function Create(kind: Kind, p: string, dontreg: bool): Result<Content>
      requires Orderly() && p != ""
    {
      var k := Key(kind, p);
      if k in entries then Ok(Hold(entries[k]))
      else if kind.Name? then Ok(Own(k, Record(1, p, "", ""), dontreg))
      else if kind.Asn? && p[0] == '&' then
        var name := FieldName(p);
        if name.Fatal? then Fatal else Ok(Own(k, Record(1, name.value, p, INVALID), dontreg))
      else
        var name := CppName(kind, p);
        if !dontreg && Key(Name, name) in entries then Ok(Found(kind, p, entries[Key(Name, name)]))
        else Ok(Fresh(kind, p, name, dontreg))
    }

    function Assign(to: nat, from: nat): Content
      requires Balanced() && to in handles && from in handles
    {
      if to == from then this else
        StillHeld(this, to, from);
        Release(to).Attach(to, handles[from])
    }

    /** The last identifier takes everything with it. */
    predicate Closes(h: nat) {
      handles.Keys == {h}
    }

    function Destroy(h: nat): Content
      requires Balanced() && h in handles
    {
      if Closes(h) then Content(map[], map[], map[], next, false) else Release(h)
    }

    // -------------------------------------------------------------- conversions of names

    /** The record of an entry has no name in another language yet. */
    predicate Lacks(k: Key, kind: Kind) {
      k in entries && entries[k] in records && records[entries[k]].In(kind) == ""
    }

    /** A name is learned if it is free, and it is a fatal error if it is not. */
    function TryLearn(kind: Kind, s: string, r: nat): Result<Content>
      requires r in records
    {
      if Key(kind, s) in entries then Fatal else Ok(Learn(kind, s, r))
    }

    function ToName(kind: Kind, p: string): Result<Content>
      requires kind != Name
    {
      var k, name := Key(kind, p), Key(Name, CppName(kind, p));
      if k in entries && !Lacks(k, Name) then Ok(this)
      else if kind.Asn? && p == "" then Fatal
      else if k in entries then TryLearn(Name, name.name, entries[k])
      else if Lacks(name, kind) then TryLearn(kind, p, entries[name])
      else Ok(this)
    }

    function FromName(kind: Kind, p: string): Result<Content>
      requires kind != Name
    {
      var k, s := Key(Name, p), LanguageName(kind, p);
      if k in entries && !Lacks(k, kind) then Ok(this)
      else if s.Fatal? then Fatal
      else if k in entries then TryLearn(kind, s.value, entries[k])
      else if Lacks(Key(kind, s.value), Name) then TryLearn(Name, p, entries[Key(kind, s.value)])
      else Ok(this)
    }

    function IsReserved(kind: Kind, p: string): Content
      requires kind != Name && p != ""
    {
      var k := Key(Name, CppName(kind, p));
      if (kind.Asn? && p[0] == '&') || Key(kind, p) in entries || !Lacks(k, kind) then this
      else Learn(kind, p, entries[k])
    }

    function GetName(h: nat, kind: Kind): Result<Content>
      requires h in handles && handles[h] in records && kind != Name
    {
      var r := handles[h];
      var s := LanguageName(kind, records[r].name);
      if records[r].In(kind) != "" then Ok(this)
      else if s.Fatal? then Fatal
      else Ok(Rename(kind, s.value, r))
    }

    // -------------------------------------------------------------- runs

    /** The identifiers that an operation is about exist. */
    predicate Possible(op: Op) {
      match op
      case Copy(h) => h in handles
      case Assign(to, from) => to in handles && from in handles
      case Destroy(h) => h in handles
      case GetName(h, kind) => h in handles && kind != Name
      case Create(_, _, _) => true
      case _ => op.kind != Name
    }

    /** The operations that need an instance */
    function WithInstance(op: Op): Result<Content>
      requires Orderly() && op.NeedsInstance() && Possible(op)
    {
      match op
      case Create(kind, p, dontreg) => if p == "" then Fatal else Create(kind, p, dontreg)
      case ToName(kind, p) => ToName(kind, p)
      case FromName(kind, p) => FromName(kind, p)
      case IsReserved(kind, p) => if p == "" then Fatal else Ok(IsReserved(kind, p))
    }

    /** The operations on identifiers that exist */
    function OnHandles(op: Op): Result<Content>
      requires Balanced() && !op.NeedsInstance() && Possible(op)
    {
      match op
      case Copy(h) => Ok(Hold(handles[h]))
      case Assign(to, from) => Ok(Assign(to, from))
      case Destroy(h) => Ok(Destroy(h))
      case GetName(h, kind) => GetName(h, kind)
    }

    /** What an operation leaves; nothing happens with identifiers that do not exist. */
    function Next(keywords: seq<Keyword>, op: Op): Result<Content>
      requires Valid() && AllUsable(keywords)
    {
      if !Possible(op) then Ok(this)
      else if !op.NeedsInstance() then OnHandles(op)
      else OpenValid(this, keywords); Open(keywords).WithInstance(op)
    }

    /** A C++ name that is not registered belongs to the ASN.1 name of what is entered under the empty C++ name. */
    predicate Relabels(op: Op) {
      op.FromName? && op.kind.Asn? && Key(Name, op.name) !in entries && NO_NAME in entries &&
      var s := LanguageName(Asn, op.name);
      s.Ok? && Key(Asn, s.value) in entries && entries[Key(Asn, s.value)] == entries[NO_NAME]
    }
  }

  datatype Op =
    | Create(kind: Kind, name: string, dontreg: bool)
    | Copy(h: nat)
    | Assign(to: nat, from: nat)
    | Destroy(h: nat)
    | GetName(h: nat, kind: Kind)
    | ToName(kind: Kind, name: string)
    | FromName(kind: Kind, name: string)
    | IsReserved(kind: Kind, name: string)
  {
    predicate NeedsInstance() {
      Create? || ToName? || FromName? || IsReserved?
    }

    predicate IsRegular() {
      Create? ==> Regular(name)
    }
  }

  predicate AllUsable(keywords: seq<Keyword>) {
    forall i :: 0 <= i < |keywords| ==> keywords[i].Usable()
  }

  lemma StillHeld(c: Content, to: nat, from: nat)
    requires c.Balanced() && to in c.handles && from in c.handles && to != from
    ensures c.handles[from] in c.Release(to).records
  {
    hide Refs;
    CountRelease(c.records, c.entries, c.handles, to);
    assert from in c.Release(to).handles;
  }

  /** In order, the keys are lost exactly for the empty name. */
  lemma MatchesExactly(c: Content)
    requires c.Orderly()
    ensures c.Matches() <==> !c.Lost()
  {
    hide AsnName;
    if NO_NAME in c.entries {
      assert NO_NAME.name == "";
    }
  }

  // ---------------------------------------------------------------- what the steps keep

  lemma AllocateGood(c: Content, rec: Record)
    requires c.Good() && rec.refCount == 1 && (rec.name == "" ==> rec.ttcnname != "")
    ensures c.Allocate(rec).Good() && (c.Allocate(rec).Lost() <==> c.Lost())
    ensures c.Named() && rec.name != "" ==> c.Allocate(rec).Named()
  {
    hide Counted, AsnName;
    CountNew(c.records, c.entries, c.handles, c.next, c.next, rec);
  }

  /** The entries and the names are the same, whatever the counts are. */
  ghost predicate SameNames(c: Content, d: Content) {
    && d.entries == c.entries && (forall k :: k in c.entries ==> c.entries[k] in d.records)
    && forall r :: r in d.records ==> r in c.records && d.records[r] == c.records[r].(refCount := d.records[r].refCount)
  }

  lemma SameNamesGood(c: Content, d: Content)
    requires c.Orderly() && SameNames(c, d)
    ensures d.Orderly() && (d.Lost() <==> c.Lost()) && (c.Named() ==> d.Named())
  {
    hide AsnName;
  }

  lemma AttachGood(c: Content, h: nat, r: nat)
    requires c.Good() && h !in c.handles && h < c.next && r in c.records
    ensures c.Attach(h, r).Good() && (c.Attach(h, r).Lost() <==> c.Lost())
    ensures c.Named() ==> c.Attach(h, r).Named()
  {
    hide Counted, Content.Orderly, Content.Lost, Content.Named;
    CountHold(c.records, c.entries, c.handles, h, r);
    EntriesLive(c);
    SameNamesGood(c, c.Attach(h, r));
  }

  lemma EntriesLive(c: Content)
    requires c.Orderly()
    ensures forall k :: k in c.entries ==> c.entries[k] in c.records
  {
  }

  lemma HoldGood(c: Content, r: nat)
    requires c.Good() && r in c.records
    ensures c.Hold(r).Good() && (c.Hold(r).Lost() <==> c.Lost())
    ensures c.Named() ==> c.Hold(r).Named()
  {
    hide Counted, Content.Orderly, Content.Lost, Content.Named;
    CountHold(c.records, c.entries, c.handles, c.next, r);
    EntriesLive(c);
    SameNamesGood(c, c.Hold(r));
  }

  lemma ReleaseGood(c: Content, h: nat)
    requires c.Good() && h in c.handles
    ensures c.handles[h] in c.records
    ensures c.Release(h).Good() && (c.Release(h).Lost() <==> c.Lost())
    ensures c.Named() ==> c.Release(h).Named()
  {
    hide Refs, Content.Orderly, Content.Lost, Content.Named;
    CountRelease(c.records, c.entries, c.handles, h);
    SameNamesGood(c, c.Release(h));
  }

  /** The record has that name, and an empty one only if there is no other. */
  ghost predicate Enterable(c: Content, k: Key, r: nat) {
    && k !in c.entries && r in c.records && c.records[r].In(k.kind) == k.name
    && (k.name == "" ==> k == NO_NAME && LeavesNothing(c.records[r]))
    && (k.kind.Ttcn? ==> c.records[r].name != "")
  }

  lemma EnterGood(c: Content, k: Key, r: nat)
    requires c.Good() && Enterable(c, k, r)
    ensures c.Enter(k, r).Good() && (c.Enter(k, r).Lost() <==> c.Lost())
    ensures c.Named() ==> c.Enter(k, r).Named()
  {
    hide Counted, AsnName, Content.Orderly, Content.Lost, Content.Named;
    CountEnter(c.records, c.entries, c.handles, k, r);
    EnterOrderly(c, k, r);
  }

  lemma EnterOrderly(c: Content, k: Key, r: nat)
    requires c.Orderly() && Enterable(c, k, r)
    ensures c.Enter(k, r).Orderly() && (c.Enter(k, r).Lost() <==> c.Lost())
    ensures c.Named() ==> c.Enter(k, r).Named()
  {
    hide Content.Orderly, Content.Lost, Content.Named, AsnName;
    EntriesLive(c);
    var d := c.(records := Changed(c.records, r, c.records[r].refCount + 1));
    SameNamesGood(c, d);
    OneMoreEntry(d, k, r);
  }

  lemma OneMoreEntry(c: Content, k: Key, r: nat)
    requires c.Orderly() && Enterable(c, k, r)
    ensures var d := c.(entries := c.entries[k := r]);
      d.Orderly() && (d.Lost() <==> c.Lost()) && (c.Named() ==> d.Named())
  {
    hide LeavesNothing;
    assert k.name == "" ==> k == NO_NAME;
  }

  lemma RenameGood(c: Content, kind: Kind, s: string, r: nat)
    requires c.Good() && r in c.records && c.records[r].In(kind) == "" && s != ""
    ensures c.Rename(kind, s, r).Good()
    ensures c.Rename(kind, s, r).Lost() <==> c.Lost() || (kind.Name? && NO_NAME in c.entries && c.entries[NO_NAME] == r)
    ensures c.Named() ==> c.Rename(kind, s, r).Named()
  {
    hide Counted, AsnName;
    CountRename(c.records, c.entries, c.handles, r, kind, s);
  }

  /** Learning a name loses the keys exactly when it is a C++ name for what is entered under the empty one. */
  lemma LearnGood(c: Content, kind: Kind, s: string, r: nat)
    requires c.Good() && r in c.records && c.records[r].In(kind) == "" && s != "" && Key(kind, s) !in c.entries
    requires kind.Ttcn? ==> c.records[r].name != ""
    ensures c.Learn(kind, s, r).Good()
    ensures c.Learn(kind, s, r).Lost() <==> c.Lost() || (kind.Name? && NO_NAME in c.entries && c.entries[NO_NAME] == r)
    ensures c.Named() ==> c.Learn(kind, s, r).Named()
  {
    hide Content.Good, Content.Lost, Content.Named, AsnName;
    RenameGood(c, kind, s, r);
    EnterGood(c.Rename(kind, s, r), Key(kind, s), r);
  }

  /** A record without a C++ name is entered under the empty one. */
  lemma LearnNothing(c: Content, r: nat)
    requires c.Good() && r in c.records && c.records[r].name == "" && NO_NAME !in c.entries
    requires LeavesNothing(c.records[r])
    ensures c.Learn(Name, "", r).Good() && (c.Learn(Name, "", r).Lost() <==> c.Lost())
  {
    hide Content.Good, Content.Lost, AsnName;
    assert c.Rename(Name, "", r) == c;
    EnterGood(c, NO_NAME, r);
  }

  // ---------------------------------------------------------------- what the instance keeps

  lemma EnterFreeGood(c: Content, k: Key, r: nat)
    requires c.Good() && r in c.records && c.records[r].In(k.kind) == k.name != "" && c.records[r].name != ""
    ensures var d := c.EnterFree(k, r);
      d.Good() && (d.Lost() <==> c.Lost()) && (c.Named() ==> d.Named()) &&
      r in d.records && forall kind: Kind :: d.records[r].In(kind) == c.records[r].In(kind)
  {
    hide Content.Good, Content.Lost, Content.Named, AsnName;
    if k !in c.entries {
      EnterGood(c, k, r);
    }
  }

  lemma EnterNamesGood(c: Content, kw: Keyword, r: nat)
    requires c.Good() && kw.Usable() && r in c.records && c.records[r].(refCount := 1) == kw.Initial()
    ensures var d := c.EnterNames(kw, r);
      d.Good() && (d.Lost() <==> c.Lost()) && (c.Named() ==> d.Named())
  {
    hide Content.Good, Content.Lost, Content.Named, Content.EnterFree;
    var n := Key(Name, kw.name);
    EnterFreeGood(c, n, r);
    var d := c.EnterFree(n, r);
    assert d.records[r].In(Name) == c.records[r].In(Name);
    assert d.records[r].In(Asn) == c.records[r].In(Asn);
    assert d.records[r].In(Ttcn) == c.records[r].In(Ttcn);
    if kw.asnname.Some? {
      EnterFreeGood(d, Key(Asn, kw.asnname.value), r);
    }
    var e := if kw.asnname.Some? then d.EnterFree(Key(Asn, kw.asnname.value), r) else d;
    assert e.records[r].In(Name) == d.records[r].In(Name);
    assert e.records[r].In(Ttcn) == d.records[r].In(Ttcn);
    if kw.ttcnname.Some? {
      EnterFreeGood(e, Key(Ttcn, kw.ttcnname.value), r);
    }
  }

  lemma AddKeywordGood(c: Content, kw: Keyword)
    requires c.Good() && kw.Usable()
    ensures var d := c.AddKeyword(kw);
      d.Good() && d.handles == c.handles && (d.Lost() <==> c.Lost()) && (c.Named() ==> d.Named())
  {
    hide Content.Good, Content.Lost, Content.Named, Content.EnterNames;
    AllocateGood(c, kw.Initial());
    var d := c.Allocate(kw.Initial());
    EnterNamesGood(d, kw, c.next);
    ReleaseGood(d.EnterNames(kw, c.next), c.next);
    NextIsNew(c);
    assert c.handles[c.next := c.next] - {c.next} == c.handles;
  }

  lemma NextIsNew(c: Content)
    requires c.Good()
    ensures c.next !in c.handles && c.next !in c.records
  {
  }

  lemma {:induction false} AddKeywordsGood(c: Content, keywords: seq<Keyword>)
    requires c.Good() && AllUsable(keywords)
    ensures var d := c.AddKeywords(keywords);
      d.Good() && d.handles == c.handles && (d.Lost() <==> c.Lost()) && (c.Named() ==> d.Named()) && d.alive == c.alive
  {
    hide Content.Good, Content.Lost, Content.Named, Keyword.Usable;
    if keywords != [] {
      var n := |keywords| - 1;
      AddKeywordsGood(c, keywords[..n]);
      AddKeywordGood(c.AddKeywords(keywords[..n]), keywords[n]);
    }
  }

  lemma OpenValid(c: Content, keywords: seq<Keyword>)
    requires c.Valid() && AllUsable(keywords)
    ensures var d := c.Open(keywords);
      d.Valid() && d.alive && d.handles == c.handles && (d.Lost() <==> c.Lost()) && (c.Named() ==> d.Named())
  {
    hide Counted, AsnName, Keyword.Usable, Content.AddKeywords;
    if !c.alive {
      AddKeywordsGood(c.(alive := true), keywords);
    }
  }

  // ---------------------------------------------------------------- what the operations keep

  lemma OwnGood(c: Content, k: Key, rec: Record, dontreg: bool)
    requires c.Good() && k !in c.entries && rec.refCount == 1 && rec.In(k.kind) == k.name != "" && !k.kind.Ttcn?
    requires rec.name == "" ==> rec.ttcnname != ""
    ensures var d := c.Own(k, rec, dontreg);
      d.Good() && (d.Lost() <==> c.Lost()) && (c.Named() && rec.name != "" ==> d.Named())
  {
    hide Content.Good, Content.Lost, Content.Named, LeavesNothing;
    AllocateGood(c, rec);
    if !dontreg {
      EnterGood(c.Allocate(rec), k, c.next);
    }
  }

  lemma FoundGood(c: Content, kind: Kind, p: string, r: nat)
    requires c.Good() && r in c.records && c.records[r].name != ""
    requires kind != Name && p != "" && Key(kind, p) !in c.entries
    ensures var d := c.Found(kind, p, r);
      d.Good() && (d.Lost() <==> c.Lost()) && (c.Named() ==> d.Named())
  {
    hide Content.Good, Content.Lost, Content.Named, Content.Learn;
    HoldGood(c, r);
    if c.records[r].In(kind) == "" {
      LearnGood(c.Hold(r), kind, p, r);
    }
  }

  lemma FreshGood(c: Content, kind: Kind, p: string, name: string, dontreg: bool)
    requires c.Good() && kind != Name && p != "" && name != "" && Key(kind, p) !in c.entries
    requires !dontreg ==> Key(Name, name) !in c.entries
    ensures var d := c.Fresh(kind, p, name, dontreg);
      d.Good() && (d.Lost() <==> c.Lost()) && (c.Named() ==> d.Named())
  {
    hide Content.Good, Content.Lost, Content.Named, LeavesNothing;
    var rec := Record(1, name, if kind.Asn? then p else "", if kind.Ttcn? then p else "");
    AllocateGood(c, rec);
    if !dontreg {
      var d := c.Allocate(rec);
      EnterGood(d, Key(Name, name), c.next);
      EnterGood(d.Enter(Key(Name, name), c.next), Key(kind, p), c.next);
    }
  }

  /** The record of a C++ name that is not empty has that name. */
  lemma NamedBy(c: Content, k: Key)
    requires c.Good() && k in c.entries && k != NO_NAME
    ensures c.entries[k] in c.records && c.records[c.entries[k]].In(k.kind) == k.name != ""
    ensures k.kind.Ttcn? ==> c.records[c.entries[k]].name != ""
  {
    hide Counted;
  }

  lemma CppNameNotEmpty(kind: Kind, p: string)
    requires kind != Name && p != "" && !(kind.Asn? && p[0] == '&')
    ensures CppName(kind, p) != ""
  {
    hide AsnName;
    if kind.Asn? {
      AsnNameNotEmpty(p);
    } else {
      NamesNotEmpty(p, '_');
    }
  }

  /** The C++ name of a regular field is not empty. */
  lemma FieldNameNotEmpty(c: Content, p: string)
    requires c.Good() && c.Named() && p != "" && p[0] == '&' && Regular(p)
    requires Key(Asn, p[1..]) in c.entries ==> c.entries[Key(Asn, p[1..])] in c.records
    ensures c.FieldName(p).Ok? ==> c.FieldName(p).value != ""
  {
    hide Counted, AsnName;
    if |p| > 1 {
      AsnNameNotEmpty(p[1..]);
    }
  }

  lemma CreateGood(c: Content, kind: Kind, p: string, dontreg: bool)
    requires c.Good() && p != "" && c.Create(kind, p, dontreg).Ok?
    ensures var d := c.Create(kind, p, dontreg).value;
      d.Good() && (d.Lost() <==> c.Lost()) && (c.Named() && Regular(p) ==> d.Named()) && d.alive == c.alive
  {
    hide Content.Balanced, Content.Lost, Content.Named, Content.Orderly, Content.Found, Content.Fresh, Content.Own,
         Content.FieldName, CppName, Regular;
    EntriesLive(c);
    AliveKept(c, kind, p, dontreg);
    var k := Key(kind, p);
    if k in c.entries {
      HoldGood(c, c.entries[k]);
    } else if kind.Name? {
      OwnGood(c, k, Record(1, p, "", ""), dontreg);
    } else if kind.Asn? && p[0] == '&' {
      OwnGood(c, k, Record(1, c.FieldName(p).value, p, INVALID), dontreg);
      if c.Named() && Regular(p) {
        FieldNameNotEmpty(c, p);
      }
    } else {
      CppNameNotEmpty(kind, p);
      var n := Key(Name, CppName(kind, p));
      if !dontreg && n in c.entries {
        NamedBy(c, n);
        FoundGood(c, kind, p, c.entries[n]);
      } else {
        FreshGood(c, kind, p, n.name, dontreg);
      }
    }
  }

  lemma AliveKept(c: Content, kind: Kind, p: string, dontreg: bool)
    requires c.Orderly() && p != "" && c.Create(kind, p, dontreg).Ok?
    ensures c.Create(kind, p, dontreg).value.alive == c.alive
  {
    hide CppName, AsnName;
  }

  /** What is entered under the empty C++ name has no other to give. */
  lemma NoOtherName(c: Content)
    requires c.Good() && NO_NAME in c.entries
    ensures c.entries[NO_NAME] in c.records && LeavesNothing(c.records[c.entries[NO_NAME]])
  {
    hide Counted;
  }

  /** Only names of ASN.1 fields are those of records without a C++ name. */
  lemma UnnamedIsField(c: Content, kind: Kind, p: string)
    requires c.Good() && kind != Name && c.Lacks(Key(kind, p), Name)
    ensures kind.Asn? && p != ""
    ensures c.records[c.entries[Key(Asn, p)]].asnname == p && c.records[c.entries[Key(Asn, p)]].ttcnname != ""
  {
    hide Counted, AsnName;
    assert Key(kind, p) != NO_NAME;
  }

  /** Conversion to C++ never loses the keys. */
  lemma ToNameGood(c: Content, kind: Kind, p: string)
    requires c.Good() && kind != Name && c.ToName(kind, p).Ok?
    ensures var d := c.ToName(kind, p).value;
      d.Good() && (d.Lost() <==> c.Lost()) && (c.Named() ==> d.Named()) && d.alive == c.alive && d.handles == c.handles
  {
    hide Content.Good, Content.Lost, AsnName, Substitute;
    var k, name := Key(kind, p), CppName(kind, p);
    if c.Lacks(k, Name) {
      UnnamedIsField(c, kind, p);
      if name == "" {
        LearnNothing(c, c.entries[k]);
      } else {
        if NO_NAME in c.entries {
          NoOtherName(c);
        }
        LearnGood(c, Name, name, c.entries[k]);
      }
    } else if k !in c.entries && c.Lacks(Key(Name, name), kind) {
      if name == "" {
        NoOtherName(c);
      }
      NoName();
      NamedBy(c, Key(Name, name));
      LearnGood(c, kind, p, c.entries[Key(Name, name)]);
    }
  }

  /** Conversion from C++ loses the keys exactly when it gives what is entered under the empty name another one. */
  lemma FromNameGood(c: Content, kind: Kind, p: string)
    requires c.Good() && kind != Name && c.FromName(kind, p).Ok?
    ensures var d := c.FromName(kind, p).value;
      d.Good() && (d.Lost() <==> c.Lost() || c.Relabels(FromName(kind, p))) && (c.Named() ==> d.Named()) &&
      d.alive == c.alive && d.handles == c.handles
  {
    hide Content.Good, Content.Named, AsnName, LanguageName, Counted;
    var k, s := Key(Name, p), LanguageName(kind, p);
    if c.Lacks(k, kind) {
      LanguageNameNotEmpty(kind, p);
      NamedBy(c, k);
      LearnGood(c, kind, s.value, c.entries[k]);
    } else if k !in c.entries {
      LanguageNameNotEmpty(kind, p);
      if c.Lacks(Key(kind, s.value), Name) {
        UnnamedIsField(c, kind, s.value);
        LearnGood(c, Name, p, c.entries[Key(kind, s.value)]);
      } else if c.Relabels(FromName(kind, p)) {
        NoOtherName(c);
      }
    }
  }

  lemma IsReservedGood(c: Content, kind: Kind, p: string)
    requires c.Good() && kind != Name && p != ""
    ensures var d := c.IsReserved(kind, p);
      d.Good() && (d.Lost() <==> c.Lost()) && (c.Named() ==> d.Named()) && d.alive == c.alive && d.handles == c.handles
  {
    hide Content.Good, Content.Lost, Content.Named, CppName;
    var k := Key(Name, CppName(kind, p));
    if !(kind.Asn? && p[0] == '&') && Key(kind, p) !in c.entries && c.Lacks(k, kind) {
      CppNameNotEmpty(kind, p);
      NamedBy(c, k);
      LearnGood(c, kind, p, c.entries[k]);
    }
  }

  lemma GetNameGood(c: Content, h: nat, kind: Kind)
    requires c.Good() && h in c.handles && c.handles[h] in c.records && kind != Name && c.GetName(h, kind).Ok?
    ensures var d := c.GetName(h, kind).value;
      d.Good() && (d.Lost() <==> c.Lost()) && (c.Named() ==> d.Named()) && d.alive == c.alive && d.handles == c.handles
  {
    hide Content.Good, Content.Lost, Content.Named, LanguageName;
    var r := c.handles[h];
    if c.records[r].In(kind) == "" {
      LanguageNameNotEmpty(kind, c.records[r].name);
      RenameGood(c, kind, LanguageName(kind, c.records[r].name).value, r);
    }
  }

  lemma AssignGood(c: Content, to: nat, from: nat)
    requires c.Good() && to in c.handles && from in c.handles
    ensures var d := c.Assign(to, from);
      d.Good() && (d.Lost() <==> c.Lost()) && (c.Named() ==> d.Named()) && d.alive == c.alive
  {
    hide Content.Lost, Content.Named, Content.Orderly, Counted;
    if to != from {
      ReleaseGood(c, to);
      StillHeld(c, to, from);
      AttachGood(c.Release(to), to, c.handles[from]);
    }
  }

  lemma DestroyGood(c: Content, h: nat)
    requires c.Valid() && h in c.handles
    ensures var d := c.Destroy(h);
      d.Valid() && (d.Lost() <==> c.Lost() && !c.Closes(h)) && (c.Named() ==> d.Named()) && d.handles == c.handles - {h}
  {
    hide Content.Lost, Content.Named, Content.Orderly, Counted;
    if c.Closes(h) {
      NothingGood(c.next);
      assert (c.handles - {h}).Keys == {};
    } else {
      ReleaseGood(c, h);
    }
  }

  lemma NothingGood(next: nat)
    ensures var d := Content(map[], map[], map[], next, false); d.Valid() && !d.Lost() && d.Named() && d.Matches()
  {
  }

  lemma HandleLives(c: Content, h: nat)
    requires c.Good() && h in c.handles
    ensures c.handles[h] in c.records && c.records[c.handles[h]].refCount > 0
  {
    hide Content.Orderly;
  }

  lemma NothingLeft(records: map<nat, Record>)
    requires Counted(records, map[], map[])
    ensures records == map[]
  {
    if r :| r in records {
      RefsNone<nat>(map[], r);
      RefsNone<Key>(map[], r);
      assert false;
    }
  }

  // ---------------------------------------------------------------- runs

  const EMPTY := Content(map[], map[], map[], 0, false)

  ghost predicate Closing(c: Content, op: Op) {
    op.Destroy? && c.Closes(op.h)
  }

  /** Every operation keeps the counts and the other keys, and which ones lose the empty key. */
  lemma NextGood(c: Content, keywords: seq<Keyword>, op: Op)
    requires c.Valid() && AllUsable(keywords) && c.Next(keywords, op).Ok?
    ensures var d := c.Next(keywords, op).value;
      d.Valid() && (d.Lost() <==> !Closing(c, op) && (c.Lost() || c.Relabels(op))) &&
      (c.Named() && op.IsRegular() ==> d.Named())
  {
    hide Content.Good, Content.Lost, Content.Named, Content.Relabels, AllUsable, Regular, Content.Open,
         Content.Create, Content.ToName, Content.FromName, Content.IsReserved, Content.GetName, Content.Assign,
         Content.Destroy;
    OnlyConversionsRelabel(c, op);
    if c.Possible(op) && op.NeedsInstance() {
      NextOpened(c, keywords, op);
    } else if c.Possible(op) {
      match op
      case Copy(h) => HandleLives(c, h); HoldGood(c, c.handles[h]);
      case Assign(to, from) => AssignGood(c, to, from);
      case Destroy(h) => DestroyGood(c, h);
      case GetName(h, kind) => HandleLives(c, h); GetNameGood(c, h, kind);
    }
  }

  lemma OnlyConversionsRelabel(c: Content, op: Op)
    ensures c.Relabels(op) ==> op.FromName? && c.Possible(op)
    ensures Closing(c, op) ==> c.Possible(op)
  {
    hide LanguageName;
    assert Closing(c, op) ==> op.h in c.handles.Keys;
  }

  /** The operations that begin with an instance */
  lemma NextOpened(c: Content, keywords: seq<Keyword>, op: Op)
    requires c.Valid() && AllUsable(keywords) && c.Next(keywords, op).Ok? && c.Possible(op)
    requires op.NeedsInstance()
    ensures var d := c.Next(keywords, op).value;
      d.Valid() && (d.Lost() <==> c.Lost() || c.Relabels(op)) && (c.Named() && op.IsRegular() ==> d.Named())
  {
    hide Content.Good, Content.Lost, Content.Named, Content.Relabels, AllUsable, Regular, Content.Open,
         Content.Create, Content.ToName, Content.FromName, Content.IsReserved;
    OpenValid(c, keywords);
    RelabelsOpened(c, keywords, op);
    OnlyConversionsRelabel(c, op);
    var o := c.Open(keywords);
    match op
    case Create(kind, p, dontreg) => CreateGood(o, kind, p, dontreg);
    case ToName(kind, p) => ToNameGood(o, kind, p);
    case FromName(kind, p) => FromNameGood(o, kind, p);
    case IsReserved(kind, p) => IsReservedGood(o, kind, p);
  }

  lemma RelabelsOpened(c: Content, keywords: seq<Keyword>, op: Op)
    requires c.Valid() && AllUsable(keywords)
    ensures c.Open(keywords).Relabels(op) <==> c.Relabels(op)
  {
    hide LanguageName, AllUsable, Content.AddKeywords;
    if !c.alive {
      NothingLeft(c.records);
      OpenValid(c, keywords);
    }
  }

  /** What a run leaves. */
  function After(keywords: seq<Keyword>, ops: seq<Op>): (c: Result<Content>)
    requires AllUsable(keywords)
    ensures c.Ok? ==> c.value.Valid()
  {
    NothingGood(0);
    if ops == [] then Ok(EMPTY)
    else
      var before := After(keywords, ops[..|ops| - 1]);
      if before.Fatal? then Fatal
      else
        var next := before.value.Next(keywords, ops[|ops| - 1]);
        if next.Ok? then NextGood(before.value, keywords, ops[|ops| - 1]); next else next
  }

  /** The `i`-th operation of a run gives what is entered under the empty C++ name another one. */
  ghost predicate RelabelsAt(keywords: seq<Keyword>, ops: seq<Op>, i: nat)
    requires AllUsable(keywords)
  {
    i < |ops| && After(keywords, ops[..i]).Ok? && After(keywords, ops[..i]).value.Relabels(ops[i])
  }

  /** The `i`-th operation of a run destroys the last identifier. */
  ghost predicate ClosesAt(keywords: seq<Keyword>, ops: seq<Op>, i: nat)
    requires AllUsable(keywords)
  {
    i < |ops| && After(keywords, ops[..i]).Ok? && Closing(After(keywords, ops[..i]).value, ops[i])
  }

  ghost predicate LosesKeys(keywords: seq<Keyword>, ops: seq<Op>)
    requires AllUsable(keywords)
  {
    exists i: nat :: RelabelsAt(keywords, ops, i) && forall j: nat :: i < j ==> !ClosesAt(keywords, ops, j)
  }

  lemma SameBefore(keywords: seq<Keyword>, ops: seq<Op>, i: nat)
    requires AllUsable(keywords) && ops != []
    ensures var init := ops[..|ops| - 1];
      (i < |init| ==> (RelabelsAt(keywords, init, i) <==> RelabelsAt(keywords, ops, i))) &&
      (i < |init| ==> (ClosesAt(keywords, init, i) <==> ClosesAt(keywords, ops, i)))
  {
    hide After, Content.Relabels;
    if i < |ops| - 1 {
      assert ops[..|ops| - 1][..i] == ops[..i];
    }
  }

  lemma LosesKeysStep(keywords: seq<Keyword>, ops: seq<Op>)
    requires AllUsable(keywords) && ops != []
    ensures var n := |ops| - 1;
      LosesKeys(keywords, ops) <==>
      !ClosesAt(keywords, ops, n) && (LosesKeys(keywords, ops[..n]) || RelabelsAt(keywords, ops, n))
  {
    hide After, RelabelsAt, ClosesAt;
    var n := |ops| - 1;
    var init := ops[..n];
    Indices(keywords, ops);
    Indices(keywords, init);
    forall i: nat | i < n
      ensures RelabelsAt(keywords, init, i) <==> RelabelsAt(keywords, ops, i)
      ensures ClosesAt(keywords, init, i) <==> ClosesAt(keywords, ops, i)
    {
      SameBefore(keywords, ops, i);
    }
    if i: nat :| RelabelsAt(keywords, ops, i) && forall j: nat :: i < j ==> !ClosesAt(keywords, ops, j) {
      assert i < n ==> RelabelsAt(keywords, init, i) && forall j: nat :: i < j ==> !ClosesAt(keywords, init, j);
    }
    if i: nat :| RelabelsAt(keywords, init, i) && forall j: nat :: i < j ==> !ClosesAt(keywords, init, j) {
      assert !ClosesAt(keywords, ops, n) ==> forall j: nat :: i < j ==> !ClosesAt(keywords, ops, j);
    }
  }

  lemma Indices(keywords: seq<Keyword>, ops: seq<Op>)
    requires AllUsable(keywords)
    ensures forall i: nat :: RelabelsAt(keywords, ops, i) || ClosesAt(keywords, ops, i) ==> i < |ops|
    ensures forall i: nat :: RelabelsAt(keywords, ops, i) ==> !ClosesAt(keywords, ops, i)
  {
    hide LanguageName, After;
  }

  /**
   After every run, the key of every entry is the name of its record if and only if no operation has given what
   is entered under the empty C++ name another name since the last identifier was destroyed.
   */
  lemma {:induction false} KeysExactly(keywords: seq<Keyword>, ops: seq<Op>)
    requires AllUsable(keywords) && After(keywords, ops).Ok?
    ensures After(keywords, ops).value.Matches() <==> !LosesKeys(keywords, ops)
    ensures After(keywords, ops).value.Lost() <==> LosesKeys(keywords, ops)
  {
    hide LosesKeys, Content.Lost, Content.Matches, Content.Next, Content.Relabels, Content.Orderly;
    MatchesExactly(After(keywords, ops).value);
    if ops == [] {
      NothingGood(0);
      NothingLost(keywords);
    } else {
      var n := |ops| - 1;
      KeysExactly(keywords, ops[..n]);
      LosesKeysStep(keywords, ops);
      NextGood(After(keywords, ops[..n]).value, keywords, ops[n]);
    }
  }

  lemma NothingLost(keywords: seq<Keyword>)
    requires AllUsable(keywords)
    ensures !LosesKeys(keywords, [])
  {
  }

  /** That takes a name that begins with two ampersands. */
  lemma {:induction false} RegularKeepsKeys(keywords: seq<Keyword>, ops: seq<Op>)
    requires AllUsable(keywords) && After(keywords, ops).Ok? && forall i :: 0 <= i < |ops| ==> ops[i].IsRegular()
    ensures After(keywords, ops).value.Named() && After(keywords, ops).value.Matches()
  {
    hide Content.Lost, Content.Matches, Content.Next, Content.Orderly;
    var c := After(keywords, ops).value;
    MatchesExactly(c);
    if ops == [] {
      NothingGood(0);
    } else {
      var n := |ops| - 1;
      RegularKeepsKeys(keywords, ops[..n]);
      NextGood(After(keywords, ops[..n]).value, keywords, ops[n]);
      NamedIsNotLost(c);
    }
  }

  lemma NamedIsNotLost(c: Content)
    requires c.Named()
    ensures !c.Lost()
  {
  }

  // ---------------------------------------------------------------- which entries there are

  /** Other entries may have come, all of them for `r`, which has its name still. */
  ghost predicate EntersOnly(c: Content, d: Content, r: nat, keys: set<Key>) {
    && d.entries.Keys == c.entries.Keys + keys
    && (forall k :: k in c.entries ==> d.entries[k] == c.entries[k])
    && (forall k :: k in d.entries && k !in c.entries ==> d.entries[k] == r)
    && r in c.records && r in d.records && d.records[r].name == c.records[r].name
  }

  lemma EnterFreeKeys(c: Content, k: Key, r: nat)
    requires r in c.records
    ensures EntersOnly(c, c.EnterFree(k, r), r, {k})
  {
  }

  lemma EntersTwice(c: Content, d: Content, e: Content, r: nat, keys: set<Key>, more: set<Key>)
    requires EntersOnly(c, d, r, keys) && EntersOnly(d, e, r, more)
    ensures EntersOnly(c, e, r, keys + more)
  {
  }

  lemma EnterNamesKeys(c: Content, kw: Keyword, r: nat)
    requires r in c.records
    ensures EntersOnly(c, c.EnterNames(kw, r), r, kw.Keys())
  {
    hide EntersOnly, Content.EnterFree;
    var keys := {Key(Name, kw.name)};
    var d := c.EnterFree(Key(Name, kw.name), r);
    EnterFreeKeys(c, Key(Name, kw.name), r);
    if kw.asnname.Some? {
      var k := Key(Asn, kw.asnname.value);
      EnterFreeKeys(d, k, r);
      EntersTwice(c, d, d.EnterFree(k, r), r, keys, {k});
      d, keys := d.EnterFree(k, r), keys + {k};
    }
    if kw.ttcnname.Some? {
      var k := Key(Ttcn, kw.ttcnname.value);
      EnterFreeKeys(d, k, r);
      EntersTwice(c, d, d.EnterFree(k, r), r, keys, {k});
      d, keys := d.EnterFree(k, r), keys + {k};
    }
    assert keys == kw.Keys();
  }

  /** A keyword is entered under those of its names that are free. */
  lemma AddKeywordEntries(c: Content, kw: Keyword)
    requires c.Good() && kw.Usable()
    ensures var d := c.AddKeyword(kw);
      d.entries.Keys == c.entries.Keys + kw.Keys() && (forall k :: k in c.entries ==> d.entries[k] == c.entries[k]) &&
      forall k :: k in d.entries && k !in c.entries ==>
        d.entries[k] in d.records && d.records[d.entries[k]].name == kw.name
  {
    hide Content.Good, Content.EnterNames, Keyword.Keys;
    var a := c.Allocate(kw.Initial());
    EnterNamesKeys(a, kw, c.next);
    AddKeywordGood(c, kw);
    var d := c.AddKeyword(kw);
    GoodEntriesLive(d);
  }

  lemma GoodEntriesLive(c: Content)
    requires c.Good()
    ensures forall k :: k in c.entries ==> c.entries[k] in c.records
  {
    hide Counted, AsnName;
  }

  lemma {:induction false} AddKeywordsKeys(c: Content, keywords: seq<Keyword>)
    requires c.Good() && AllUsable(keywords)
    ensures c.AddKeywords(keywords).entries.Keys == c.entries.Keys + AllKeys(keywords)
  {
    hide Content.Good, Content.AddKeyword, Keyword.Keys, Keyword.Usable;
    if keywords != [] {
      var n := |keywords| - 1;
      AddKeywordsKeys(c, keywords[..n]);
      AddKeywordsGood(c, keywords[..n]);
      AddKeywordEntries(c.AddKeywords(keywords[..n]), keywords[n]);
    }
  }

  /** Entries and C++ names stay as they are; others may come. */
  ghost predicate Kept(before: Content, after: Content) {
    (forall k :: k in before.entries ==> k in after.entries && after.entries[k] == before.entries[k]) &&
    forall r :: r in before.records ==> r in after.records && after.records[r].name == before.records[r].name
  }

  /** The C++ name of an identifier that is not registered yet. */
  function NewName(c: Content, kind: Kind, p: string): string
    requires p != ""
  {
    match kind
    case Name => p
    case Ttcn => CppName(Ttcn, p)
    case Asn =>
      var field := Key(Asn, p[1..]);
      if p[0] != '&' then CppName(Asn, p)
      else if field in c.entries && c.entries[field] in c.records then c.records[c.entries[field]].name
      else CppName(Asn, p[1..])
  }

  /** The entries after an identifier with the record `r` was created. */
  function EntriesAfter(c: Content, kind: Kind, p: string, dontreg: bool, r: nat): map<Key, nat>
    requires p != ""
  {
    if dontreg || Key(kind, p) in c.entries then c.entries
    else if kind.Name? || (kind.Asn? && p[0] == '&') then c.entries[Key(kind, p) := r]
    else EntriesWith(c, Key(kind, p), Key(Name, CppName(kind, p)), r)
  }

  /** The entries with a new one, which goes with the one of its C++ name. */
  function EntriesWith(c: Content, k: Key, name: Key, r: nat): map<Key, nat> {
    if name !in c.entries then c.entries[name := r][k := r]
    else if c.Lacks(name, k.kind) then c.entries[k := r]
    else c.entries
  }

  /** Another name of the same language stands in the way. */
  predicate Clashes(c: Content, kind: Kind, p: string, dontreg: bool)
    requires p != ""
  {
    !dontreg && kind != Name && Key(kind, p) !in c.entries && !(kind.Asn? && p[0] == '&') &&
    var k := Key(Name, CppName(kind, p));
    k in c.entries && c.entries[k] in c.records && c.records[c.entries[k]].In(kind) !in {"", p}
  }

  /**
   What every constructor of an identifier promises: a new handle, to the registered record if there is
   one and otherwise to one with the right C++ name; which entries there are afterwards; and a clash exactly
   when the record has another name in that language.
   */
  ghost predicate Created(before: Content, after: Content, h: nat, kind: Kind, p: string, dontreg: bool, clash: bool)
    requires p != ""
  {
    h !in before.handles && h in after.handles &&
    var r := after.handles[h];
    after.handles == before.handles[h := r] && r in after.records &&
    after.entries == EntriesAfter(before, kind, p, dontreg, r) && Kept(before, after) &&
    (Key(kind, p) in before.entries ==> r == before.entries[Key(kind, p)]) &&
    (clash <==> after.records[r].In(kind) != p) &&
    (Key(kind, p) !in before.entries ==> after.records[r].name == NewName(before, kind, p))
  }

  /** A new handle to `r` and these entries, and nothing lost. */
  ghost predicate Adds(c: Content, d: Content, r: nat, entries: map<Key, nat>) {
    d.handles == c.handles[c.next := r] && r in d.records && d.entries == entries && Kept(c, d)
  }

  lemma HoldMeans(c: Content, r: nat)
    requires r in c.records
    ensures Adds(c, c.Hold(r), r, c.entries)
    ensures forall kind: Kind :: c.Hold(r).records[r].In(kind) == c.records[r].In(kind)
  {
  }

  lemma OwnMeans(c: Content, k: Key, rec: Record, dontreg: bool)
    requires c.Good() && k !in c.entries
    ensures var d := c.Own(k, rec, dontreg);
      Adds(c, d, c.next, if dontreg then c.entries else c.entries[k := c.next]) &&
      forall kind: Kind :: d.records[c.next].In(kind) == rec.In(kind)
  {
    hide Content.Good;
    NextIsNew(c);
  }

  lemma FreshMeans(c: Content, kind: Kind, p: string, name: string, dontreg: bool)
    requires c.Good() && kind != Name && Key(kind, p) !in c.entries && (!dontreg ==> Key(Name, name) !in c.entries)
    ensures var d := c.Fresh(kind, p, name, dontreg);
      Adds(c, d, c.next, if dontreg then c.entries else c.entries[Key(Name, name) := c.next][Key(kind, p) := c.next]) &&
      d.records[c.next].In(kind) == p && d.records[c.next].name == name
  {
    hide Content.Good;
    NextIsNew(c);
  }

  lemma FoundMeans(c: Content, kind: Kind, p: string, r: nat)
    requires r in c.records && kind != Name && Key(kind, p) !in c.entries
    ensures var d := c.Found(kind, p, r);
      Adds(c, d, r, if c.records[r].In(kind) == "" then c.entries[Key(kind, p) := r] else c.entries) &&
      d.records[r].name == c.records[r].name && (d.records[r].In(kind) != p <==> c.records[r].In(kind) !in {"", p})
  {
    if c.records[r].In(kind) == "" {
      assert c.Hold(r).records[r].With(kind, p).In(Name) == c.Hold(r).records[r].In(Name);
    }
  }

  lemma CreateMeans(c: Content, kind: Kind, p: string, dontreg: bool)
    requires c.Good() && p != "" && c.Create(kind, p, dontreg).Ok?
    ensures Created(c, c.Create(kind, p, dontreg).value, c.next, kind, p, dontreg, Clashes(c, kind, p, dontreg))
  {
    hide Content.Balanced, Content.Orderly, CppName, AsnName, Content.FieldName, Content.Own, Content.Found,
         Content.Fresh, Content.Hold, Kept;
    NextIsNew(c);
    EntriesLive(c);
    var k := Key(kind, p);
    if k in c.entries {
      NamedBy(c, k);
      HoldMeans(c, c.entries[k]);
    } else if kind.Name? {
      OwnMeans(c, k, Record(1, p, "", ""), dontreg);
      assert c.Own(k, Record(1, p, "", ""), dontreg).records[c.next].In(Name) == p;
    } else if kind.Asn? && p[0] == '&' {
      FieldMeans(c, p, dontreg);
    } else {
      CppNameNotEmpty(kind, p);
      var n := Key(Name, CppName(kind, p));
      if !dontreg && n in c.entries {
        NamedBy(c, n);
        FoundMeans(c, kind, p, c.entries[n]);
      } else {
        FreshMeans(c, kind, p, n.name, dontreg);
      }
    }
  }

  lemma FieldMeans(c: Content, p: string, dontreg: bool)
    requires c.Good() && p != "" && p[0] == '&' && Key(Asn, p) !in c.entries && c.Create(Asn, p, dontreg).Ok?
    ensures var d := c.Create(Asn, p, dontreg).value;
      Adds(c, d, c.next, if dontreg then c.entries else c.entries[Key(Asn, p) := c.next]) &&
      d.records[c.next].asnname == p && d.records[c.next].name == NewName(c, Asn, p)
  {
    hide Content.Balanced, Content.Orderly, CppName, Content.FieldName, NewName, Content.Own, Kept;
    EntriesLive(c);
    FieldNameIs(c, p);
    var rec := Record(1, c.FieldName(p).value, p, INVALID);
    OwnMeans(c, Key(Asn, p), rec, dontreg);
    var d := c.Own(Key(Asn, p), rec, dontreg);
    assert d.records[c.next].In(Name) == rec.name && d.records[c.next].In(Asn) == p;
  }

  lemma FieldNameIs(c: Content, p: string)
    requires p != "" && p[0] == '&' && (Key(Asn, p[1..]) in c.entries ==> c.entries[Key(Asn, p[1..])] in c.records)
    ensures c.FieldName(p).Ok? ==> c.FieldName(p).value == NewName(c, Asn, p)
  {
    hide AsnName;
  }
}
