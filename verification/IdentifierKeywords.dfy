/**
 What every run on the registry of identifiers of compiler2/Identifier.cc does with its keywords: they stay
 entered with their names as long as there is an instance, so that words are reserved for them.
 */
module IdentifierKeywords {
  import opened Results
  import opened NameMangling
  import opened IdentifierTable

  // ---------------------------------------------------------------- what stays

  /** Entries stay, and so do the names of their records once they are known. */
  ghost predicate Keeps(c: Content, d: Content) {
    forall k :: k in c.entries && c.entries[k] in c.records ==>
      k in d.entries && d.entries[k] == c.entries[k] && d.entries[k] in d.records &&
      NamesStay(c.records[c.entries[k]], d.records[c.entries[k]])
  }

  predicate NamesStay(rec: Record, other: Record) {
    && (rec.name != "" ==> other.name == rec.name)
    && (rec.asnname != "" ==> other.asnname == rec.asnname)
    && (rec.ttcnname != "" ==> other.ttcnname == rec.ttcnname)
  }

  lemma KeepsTwice(c: Content, d: Content, e: Content)
    requires Keeps(c, d) && Keeps(d, e)
    ensures Keeps(c, e)
  {
  }

  lemma AllocateKeeps(c: Content, rec: Record)
    requires c.Good()
    ensures Keeps(c, c.Allocate(rec))
  {
    hide Content.Good;
    NextIsNew(c);
  }

  lemma HoldKeeps(c: Content, r: nat)
    requires r in c.records
    ensures Keeps(c, c.Hold(r))
  {
  }

  lemma EnterKeeps(c: Content, k: Key, r: nat)
    requires r in c.records && k !in c.entries
    ensures Keeps(c, c.Enter(k, r))
  {
  }

  lemma RenameKeeps(c: Content, kind: Kind, s: string, r: nat)
    requires r in c.records && c.records[r].In(kind) == ""
    ensures Keeps(c, c.Rename(kind, s, r))
  {
    var rec := c.records[r];
    assert rec.With(kind, s).In(Name) == if kind.Name? then s else rec.In(Name);
    assert rec.With(kind, s).In(Asn) == if kind.Asn? then s else rec.In(Asn);
    assert rec.With(kind, s).In(Ttcn) == if kind.Ttcn? then s else rec.In(Ttcn);
  }

  lemma LearnKeeps(c: Content, kind: Kind, s: string, r: nat)
    requires r in c.records && c.records[r].In(kind) == "" && Key(kind, s) !in c.entries
    ensures Keeps(c, c.Learn(kind, s, r))
  {
    hide Keeps;
    RenameKeeps(c, kind, s, r);
    EnterKeeps(c.Rename(kind, s, r), Key(kind, s), r);
    KeepsTwice(c, c.Rename(kind, s, r), c.Learn(kind, s, r));
  }

  lemma ReleaseKeeps(c: Content, h: nat)
    requires c.Good() && h in c.handles
    ensures c.handles[h] in c.records && Keeps(c, c.Release(h))
  {
    hide Content.Good;
    ReleaseGood(c, h);
    GoodEntriesLive(c.Release(h));
  }

  lemma EnterFreeKeeps(c: Content, k: Key, r: nat)
    requires r in c.records
    ensures Keeps(c, c.EnterFree(k, r))
  {
    hide Keeps;
    if k in c.entries {
      KeepsItself(c);
    } else {
      EnterKeeps(c, k, r);
    }
  }

  lemma KeepsItself(c: Content)
    ensures Keeps(c, c)
  {
  }

  lemma EnterNamesKeeps(c: Content, kw: Keyword, r: nat)
    requires r in c.records
    ensures Keeps(c, c.EnterNames(kw, r))
  {
    hide Keeps, Content.EnterFree;
    var d := c.EnterFree(Key(Name, kw.name), r);
    EnterFreeKeeps(c, Key(Name, kw.name), r);
    if kw.asnname.Some? {
      var k := Key(Asn, kw.asnname.value);
      EnterFreeKeeps(d, k, r);
      KeepsTwice(c, d, d.EnterFree(k, r));
      d := d.EnterFree(k, r);
    }
    if kw.ttcnname.Some? {
      var k := Key(Ttcn, kw.ttcnname.value);
      EnterFreeKeeps(d, k, r);
      KeepsTwice(c, d, d.EnterFree(k, r));
    }
  }

  lemma AddKeywordKeeps(c: Content, kw: Keyword)
    requires c.Good() && kw.Usable()
    ensures Keeps(c, c.AddKeyword(kw))
  {
    hide Keeps, Content.Good, Content.EnterNames;
    var a := c.Allocate(kw.Initial());
    var d := a.EnterNames(kw, c.next);
    AllocateGood(c, kw.Initial());
    EnterNamesGood(a, kw, c.next);
    AllocateKeeps(c, kw.Initial());
    EnterNamesKeeps(a, kw, c.next);
    ReleaseKeeps(d, c.next);
    KeepsTwice(c, a, d);
    KeepsTwice(c, d, d.Release(c.next));
  }

  lemma OpenKeeps(c: Content, keywords: seq<Keyword>)
    requires c.Valid() && AllUsable(keywords)
    ensures Keeps(c, c.Open(keywords))
  {
    hide Counted, AsnName, AllUsable, Content.AddKeywords;
    if c.alive {
      KeepsItself(c);
    }
  }

  lemma CreateKeeps(c: Content, kind: Kind, p: string, dontreg: bool)
    requires c.Good() && p != "" && c.Create(kind, p, dontreg).Ok?
    ensures Keeps(c, c.Create(kind, p, dontreg).value)
  {
    hide Keeps, Content.Balanced, Content.Orderly, Content.FieldName, Content.Found, Content.Own, Content.Fresh, CppName;
    EntriesLive(c);
    var k := Key(kind, p);
    if k in c.entries {
      HoldKeeps(c, c.entries[k]);
    } else if kind.Name? {
      OwnKeeps(c, k, Record(1, p, "", ""), dontreg);
    } else if kind.Asn? && p[0] == '&' {
      OwnKeeps(c, k, Record(1, c.FieldName(p).value, p, INVALID), dontreg);
    } else {
      var n := Key(Name, CppName(kind, p));
      if !dontreg && n in c.entries {
        FoundKeeps(c, kind, p, c.entries[n]);
      } else {
        FreshKeeps(c, kind, p, n.name, dontreg);
      }
    }
  }

  lemma OwnKeeps(c: Content, k: Key, rec: Record, dontreg: bool)
    requires c.Good() && k !in c.entries
    ensures Keeps(c, c.Own(k, rec, dontreg))
  {
    hide Keeps, Content.Good;
    var a := c.Allocate(rec);
    AllocateKeeps(c, rec);
    if !dontreg {
      EnterKeeps(a, k, c.next);
      KeepsTwice(c, a, a.Enter(k, c.next));
    }
  }

  lemma FoundKeeps(c: Content, kind: Kind, p: string, r: nat)
    requires r in c.records && Key(kind, p) !in c.entries
    ensures Keeps(c, c.Found(kind, p, r))
  {
    hide Keeps, Content.Learn;
    HoldKeeps(c, r);
    if c.records[r].In(kind) == "" {
      LearnKeeps(c.Hold(r), kind, p, r);
      KeepsTwice(c, c.Hold(r), c.Found(kind, p, r));
    }
  }

  lemma FreshKeeps(c: Content, kind: Kind, p: string, name: string, dontreg: bool)
    requires c.Good() && kind != Name && Key(kind, p) !in c.entries && (!dontreg ==> Key(Name, name) !in c.entries)
    ensures Keeps(c, c.Fresh(kind, p, name, dontreg))
  {
    hide Keeps, Content.Good;
    var a := c.Allocate(Record(1, name, if kind.Asn? then p else "", if kind.Ttcn? then p else ""));
    AllocateKeeps(c, Record(1, name, if kind.Asn? then p else "", if kind.Ttcn? then p else ""));
    if !dontreg {
      var b := a.Enter(Key(Name, name), c.next);
      EnterKeeps(a, Key(Name, name), c.next);
      EnterKeeps(b, Key(kind, p), c.next);
      KeepsTwice(c, a, b);
      KeepsTwice(c, b, b.Enter(Key(kind, p), c.next));
    }
  }

  lemma WithInstanceKeeps(c: Content, op: Op)
    requires c.Good() && op.NeedsInstance() && c.Possible(op) && c.WithInstance(op).Ok?
    ensures Keeps(c, c.WithInstance(op).value)
  {
    hide Keeps, Content.Balanced, Content.Orderly, Content.Create, Content.Learn, CppName, LanguageName;
    KeepsItself(c);
    match op
    case Create(kind, p, dontreg) => CreateKeeps(c, kind, p, dontreg);
    case ToName(kind, p) =>
      var k, name := Key(kind, p), Key(Name, CppName(kind, p));
      if c.Lacks(k, Name) {
        if !(kind.Asn? && p == "") {
          LearnKeeps(c, Name, name.name, c.entries[k]);
        }
      } else if k !in c.entries && !(kind.Asn? && p == "") && c.Lacks(name, kind) {
        LearnKeeps(c, kind, p, c.entries[name]);
      }
    case FromName(kind, p) =>
      var k, s := Key(Name, p), LanguageName(kind, p);
      if c.Lacks(k, kind) {
        LearnKeeps(c, kind, s.value, c.entries[k]);
      } else if k !in c.entries && c.Lacks(Key(kind, s.value), Name) {
        LearnKeeps(c, Name, p, c.entries[Key(kind, s.value)]);
      }
    case IsReserved(kind, p) =>
      var k := Key(Name, CppName(kind, p));
      if !(kind.Asn? && p[0] == '&') && Key(kind, p) !in c.entries && c.Lacks(k, kind) {
        LearnKeeps(c, kind, p, c.entries[k]);
      }
  }

  lemma OnHandlesKeeps(c: Content, op: Op)
    requires c.Good() && !op.NeedsInstance() && c.Possible(op) && c.OnHandles(op).Ok? && !Closing(c, op)
    ensures Keeps(c, c.OnHandles(op).value)
  {
    hide Keeps, Content.Balanced, Content.Orderly, LanguageName;
    KeepsItself(c);
    match op
    case Copy(h) => HandleLives(c, h); HoldKeeps(c, c.handles[h]);
    case Assign(to, from) =>
      if to != from {
        ReleaseKeeps(c, to);
        StillHeld(c, to, from);
        AttachKeeps(c.Release(to), to, c.handles[from]);
        KeepsTwice(c, c.Release(to), c.Assign(to, from));
      }
    case Destroy(h) => ReleaseKeeps(c, h);
    case GetName(h, kind) =>
      HandleLives(c, h);
      if c.records[c.handles[h]].In(kind) == "" {
        RenameKeeps(c, kind, LanguageName(kind, c.records[c.handles[h]].name).value, c.handles[h]);
      }
  }

  lemma AttachKeeps(c: Content, h: nat, r: nat)
    requires r in c.records
    ensures Keeps(c, c.Attach(h, r))
  {
  }

  /** No operation but the last destruction takes entries or known names away. */
  lemma NextKeeps(c: Content, keywords: seq<Keyword>, op: Op)
    requires c.Valid() && AllUsable(keywords) && c.Next(keywords, op).Ok? && !Closing(c, op)
    ensures Keeps(c, c.Next(keywords, op).value)
  {
    hide Keeps, Content.Balanced, Content.Orderly, AllUsable, Content.Open, Content.WithInstance, Content.OnHandles;
    if !c.Possible(op) {
      KeepsItself(c);
    } else if op.NeedsInstance() {
      OpenValid(c, keywords);
      OpenKeeps(c, keywords);
      WithInstanceKeeps(c.Open(keywords), op);
      KeepsTwice(c, c.Open(keywords), c.Next(keywords, op).value);
    } else {
      OnHandlesKeeps(c, op);
    }
  }

  // ---------------------------------------------------------------- keywords

  /** The keyword is entered under its C++ name, with its names, and "<invalid>" where it has none. */
  ghost predicate Holds(c: Content, kw: Keyword) {
    var k := Key(Name, kw.name);
    k in c.entries && c.entries[k] in c.records &&
    var rec := c.records[c.entries[k]];
    rec.name == kw.name &&
    rec.asnname == (if kw.asnname.Some? then kw.asnname.value else "<invalid>") &&
    rec.ttcnname == (if kw.ttcnname.Some? then kw.ttcnname.value else "<invalid>")
  }

  lemma KeepsHolds(c: Content, d: Content, kw: Keyword)
    requires Keeps(c, d) && Holds(c, kw) && kw.Usable()
    ensures Holds(d, kw)
  {
    var k := Key(Name, kw.name);
    assert NamesStay(c.records[c.entries[k]], d.records[c.entries[k]]);
  }

  /** The first row of the table with its C++ name. */
  predicate IsFirst(keywords: seq<Keyword>, i: nat)
    requires i < |keywords|
  {
    forall j :: 0 <= j < i ==> keywords[j].name != keywords[i].name
  }

  lemma AddKeywordHolds(c: Content, kw: Keyword)
    requires c.Good() && kw.Usable() && Key(Name, kw.name) !in c.entries
    ensures Holds(c.AddKeyword(kw), kw)
  {
    hide Content.Good, Keeps;
    var a := c.Allocate(kw.Initial());
    var k := Key(Name, kw.name);
    AllocateGood(c, kw.Initial());
    var e := a.EnterFree(k, c.next);
    assert Holds(e, kw);
    AddKeywordSteps(c, kw, e);
    KeepsHolds(e, c.AddKeyword(kw), kw);
  }

  /** What comes after the first entry. */
  lemma AddKeywordSteps(c: Content, kw: Keyword, e: Content)
    requires c.Good() && kw.Usable() && e == c.Allocate(kw.Initial()).EnterFree(Key(Name, kw.name), c.next)
    ensures Keeps(e, c.AddKeyword(kw))
  {
    hide Content.Good, Keeps, Content.EnterFree;
    var a := c.Allocate(kw.Initial());
    var d := e;
    KeepsItself(e);
    if kw.asnname.Some? {
      var k := Key(Asn, kw.asnname.value);
      EnterFreeKeeps(d, k, c.next);
      KeepsTwice(e, d, d.EnterFree(k, c.next));
      d := d.EnterFree(k, c.next);
    }
    if kw.ttcnname.Some? {
      var k := Key(Ttcn, kw.ttcnname.value);
      EnterFreeKeeps(d, k, c.next);
      KeepsTwice(e, d, d.EnterFree(k, c.next));
      d := d.EnterFree(k, c.next);
    }
    assert d == a.EnterNames(kw, c.next);
    AllocateGood(c, kw.Initial());
    EnterNamesGood(a, kw, c.next);
    ReleaseKeeps(d, c.next);
    KeepsTwice(e, d, d.Release(c.next));
  }

  lemma {:induction false} NotYetEntered(keywords: seq<Keyword>, name: string)
    requires forall j :: 0 <= j < |keywords| ==> keywords[j].name != name
    ensures Key(Name, name) !in AllKeys(keywords)
  {
    if keywords != [] {
      NotYetEntered(keywords[..|keywords| - 1], name);
    }
  }

  lemma {:induction false} AddKeywordsHold(c: Content, keywords: seq<Keyword>, i: nat)
    requires c.Good() && AllUsable(keywords) && c.entries == map[] && i < |keywords| && IsFirst(keywords, i)
    ensures Holds(c.AddKeywords(keywords), keywords[i])
  {
    hide Content.Good, Content.AddKeyword, Holds, Keeps, Keyword.Usable, AllKeys;
    var n := |keywords| - 1;
    var init := keywords[..n];
    var d := c.AddKeywords(init);
    AddKeywordsGood(c, init);
    if i < n {
      AddKeywordsHold(c, init, i);
      AddKeywordKeeps(d, keywords[n]);
      KeepsHolds(d, d.AddKeyword(keywords[n]), keywords[i]);
    } else {
      AddKeywordsKeys(c, init);
      NotYetEntered(init, keywords[n].name);
      AddKeywordHolds(d, keywords[n]);
    }
  }

  /** While there is an instance, it has its keywords. */
  lemma {:induction false} AfterHolds(keywords: seq<Keyword>, ops: seq<Op>, i: nat)
    requires AllUsable(keywords) && After(keywords, ops).Ok? && After(keywords, ops).value.alive
    requires i < |keywords| && IsFirst(keywords, i)
    ensures Holds(After(keywords, ops).value, keywords[i])
  {
    hide Content.Next, Content.Balanced, Content.Orderly, Holds, Keeps, Keyword.Usable;
    if ops != [] {
      var n := |ops| - 1;
      var c, op := After(keywords, ops[..n]).value, ops[n];
      NextAlive(c, keywords, op);
      if c.alive {
        AfterHolds(keywords, ops[..n], i);
        NextKeeps(c, keywords, op);
        KeepsHolds(c, c.Next(keywords, op).value, keywords[i]);
      } else {
        OpenedHolds(c, keywords, i);
        NextFromOpened(c, keywords, op);
        KeepsHolds(c.Open(keywords), c.Next(keywords, op).value, keywords[i]);
      }
    }
  }

  /** Whether there is an instance after an operation. */
  lemma NextAlive(c: Content, keywords: seq<Keyword>, op: Op)
    requires c.Valid() && AllUsable(keywords) && c.Next(keywords, op).Ok? && c.Next(keywords, op).value.alive
    ensures !Closing(c, op) && (!c.alive ==> op.NeedsInstance() && c.Possible(op))
  {
    hide Content.Balanced, Content.Orderly, AllUsable, Content.Open, Content.WithInstance, LanguageName;
  }

  lemma NextFromOpened(c: Content, keywords: seq<Keyword>, op: Op)
    requires c.Valid() && AllUsable(keywords) && c.Next(keywords, op).Ok? && op.NeedsInstance() && c.Possible(op)
    ensures Keeps(c.Open(keywords), c.Next(keywords, op).value)
  {
    hide Keeps, Content.Balanced, Content.Orderly, AllUsable, Content.Open, Content.WithInstance;
    OpenValid(c, keywords);
    WithInstanceKeeps(c.Open(keywords), op);
  }

  lemma OpenedHolds(c: Content, keywords: seq<Keyword>, i: nat)
    requires c.Valid() && !c.alive && AllUsable(keywords) && i < |keywords| && IsFirst(keywords, i)
    ensures Holds(c.Open(keywords), keywords[i])
  {
    hide Counted, AsnName, AllUsable, Content.AddKeywords, Holds;
    AddKeywordsHold(c.(alive := true), keywords, i);
  }

  /** The language has no name in the row. */
  predicate IsMissing(kw: Keyword, kind: Kind) {
    (kind.Asn? && kw.asnname.None?) || (kind.Ttcn? && kw.ttcnname.None?)
  }

  /**
   After every run: a word whose C++ name is that of a keyword without a name in the language clashes, and so is
   reserved, exactly when it is not registered. Names of fields never are, nor is "<invalid>".
   */
  lemma KeywordsClash(keywords: seq<Keyword>, ops: seq<Op>, i: nat, kind: Kind, p: string)
    requires AllUsable(keywords) && After(keywords, ops).Ok? && i < |keywords| && IsFirst(keywords, i)
    requires IsMissing(keywords[i], kind) && p != "" && CppName(kind, p) == keywords[i].name
    ensures var c := After(keywords, ops).value.Open(keywords);
      Clashes(c, kind, p, false) <==> Key(kind, p) !in c.entries && !(kind.Asn? && p[0] == '&') && p != "<invalid>"
  {
    hide Content.Balanced, Content.Orderly, AllUsable, CppName, Content.Next, Content.AddKeywords, After;
    var c := After(keywords, ops).value;
    if c.alive {
      AfterHolds(keywords, ops, i);
    } else {
      OpenedHolds(c, keywords, i);
    }
  }
}
