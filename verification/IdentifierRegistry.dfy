/**
 The registry of identifiers of compiler2/Identifier.cc: one instance, with its keywords, that lives as long
 as there are identifiers. Every operation does to its fields what the operation of the same name does to the
 content as a value.
 */
module IdentifierRegistry {
  import opened Results
  import opened NameMangling
  import opened IdentifierTable
  import opened IdentifierKeywords

  class Registry {
    const keywords: seq<Keyword>

    var records: map<nat, Record>
    var entries: map<Key, nat>
    var handles: map<nat, nat>
    var next: nat
    var alive: bool
    var counter: nat

    function State(): Content
      reads this
    {
      Content(records, entries, handles, next, alive)
    }

    /** Between operations: every record is counted once for each handle and entry, and handles are counted. */
    ghost predicate Valid()
      reads this
    {
      State().Valid() && AllUsable(keywords) && counter == |handles|
    }

    /** The key of every entry is the corresponding name of its record. */
    ghost predicate Consistent()
      reads this
    {
      State().Matches()
    }

    /** What there is as soon as there is an instance. */
    ghost function Opened(): (c: Content)
      requires Valid()
      reads this
      ensures c.Valid() && c.alive && c.handles == handles && (c.Matches() <==> State().Matches())
    {
      hide Content.Balanced, Content.Orderly, Content.Matches, Content.Lost, AllUsable, Content.Open;
      OpenValid(State(), keywords);
      MatchesExactly(State());
      MatchesExactly(State().Open(keywords));
      State().Open(keywords)
    }

    constructor (keywords: seq<Keyword>)
      requires AllUsable(keywords)
      ensures Valid() && Consistent() && this.keywords == keywords && State() == EMPTY
    {
      this.keywords := keywords;
      records, entries, handles, counter, alive, next := map[], map[], map[], 0, false, 0;
      new;
      NothingGood(0);
    }

    // -------------------------------------------------------------- references

    method NewRecord(rec: Record) returns (h: nat)
      modifies `records, `handles, `next
      ensures h == old(next) && State() == old(State()).Allocate(rec)
    {
      h := next;
      records := records[h := rec];
      handles := handles[h := h];
      next := next + 1;
    }

    method Attach(h: nat, r: nat)
      requires r in records
      modifies `records, `handles
      ensures State() == old(State()).Attach(h, r)
    {
      records := records[r := records[r].(refCount := records[r].refCount + 1)];
      handles := handles[h := r];
    }

    method Hold(r: nat) returns (h: nat)
      requires r in records
      modifies `records, `handles, `next
      ensures h == old(next) && State() == old(State()).Hold(r)
    {
      h := next;
      next := next + 1;
      Attach(h, r);
    }

    /** `map::add`, and one more reference; an existing key is a fatal error. */
    method Enter(k: Key, r: nat) returns (ok: bool)
      requires r in records
      modifies `records, `entries
      ensures ok <==> k !in old(entries)
      ensures State() == if ok then old(State()).Enter(k, r) else old(State())
    {
      if k in entries {
        return false;
      }
      entries := entries[k := r];
      records := records[r := records[r].(refCount := records[r].refCount + 1)];
      ok := true;
    }

    /** `delete_this`: one reference less, and no record without references */
    method DeleteThis(r: nat)
      requires r in records && records[r].refCount > 0
      modifies `records
      ensures records == Dropped(old(records), r)
    {
      records := records[r := records[r].(refCount := records[r].refCount - 1)];
      if records[r].refCount == 0 {
        records := records - {r};
      }
    }

    method Release(h: nat)
      requires h in handles && handles[h] in records && records[handles[h]].refCount > 0
      modifies `records, `handles
      ensures State() == old(State()).Release(h)
    {
      DeleteThis(handles[h]);
      handles := handles - {h};
    }

    /** An entry is given up. */
    method RemoveEntry(k: Key)
      requires Counted(records, entries, handles) && k in entries
      modifies `records, `entries
      ensures Counted(records, entries, handles) && entries == old(entries) - {k}
    {
      hide Refs;
      CountRemove(records, entries, handles, k);
      DeleteThis(entries[k]);
      entries := entries - {k};
    }

    /** A name is set and entered; it is a fatal error if it is another one's. */
    method Learn(kind: Kind, name: string, r: nat) returns (ok: bool)
      requires r in records
      modifies `records, `entries
      ensures ok <==> old(State()).TryLearn(kind, name, r).Ok?
      ensures ok ==> State() == old(State()).Learn(kind, name, r)
    {
      records := records[r := records[r].With(kind, name)];
      ok := Enter(Key(kind, name), r);
    }

    // -------------------------------------------------------------- the instance

    /** One name of a keyword; a conflict is reported and changes nothing. */
    method EnterKeyword(kind: Kind, name: string, r: nat)
      requires r in records
      modifies `records, `entries
      ensures State() == old(State()).EnterFree(Key(kind, name), r)
    {
      if Key(kind, name) !in entries {
        var _ := Enter(Key(kind, name), r);
      }
    }

    method EnterNames(kw: Keyword, r: nat)
      requires r in records
      modifies `records, `entries
      ensures State() == old(State()).EnterNames(kw, r)
    {
      hide Content.EnterFree;
      EnterKeyword(Name, kw.name, r);
      if kw.asnname.Some? {
        EnterKeyword(Asn, kw.asnname.value, r);
      }
      if kw.ttcnname.Some? {
        EnterKeyword(Ttcn, kw.ttcnname.value, r);
      }
    }

    /** `add_keyword` */
    method AddKeyword(kw: Keyword)
      requires State().Good() && kw.Usable()
      modifies `records, `entries, `handles, `next
      ensures State() == old(State()).AddKeyword(kw) && State().Good() && handles == old(handles)
      ensures entries.Keys == old(entries.Keys) + kw.Keys()
      ensures forall k :: k in old(entries) ==> entries[k] == old(entries[k])
      ensures forall k :: k in entries && k !in old(entries) ==>
        entries[k] in records && records[entries[k]].name == kw.name
      ensures Key(Name, kw.name) !in old(entries) ==> Holds(State(), kw)
    {
      hide Content.Good, Content.EnterNames, Keyword.Keys, Holds;
      if Key(Name, kw.name) !in entries {
        AddKeywordHolds(State(), kw);
      }
      AddKeywordEntries(State(), kw);
      AddKeywordGood(State(), kw);
      AllocateGood(State(), kw.Initial());
      EnterNamesGood(State().Allocate(kw.Initial()), kw, next);
      var h := NewRecord(kw.Initial());
      EnterNames(kw, h);
      HandleLives(State(), h);
      Release(h);
    }

    /** `add_keywords` */
    method AddKeywords()
      requires State().Good() && AllUsable(keywords)
      modifies `records, `entries, `handles, `next
      ensures State() == old(State()).AddKeywords(keywords)
    {
      hide Content.Good, Keyword.Keys, Keyword.Usable, Content.AddKeyword;
      for i := 0 to |keywords|
        invariant State().Good() && State() == old(State()).AddKeywords(keywords[..i])
      {
        assert keywords[..i + 1][..i] == keywords[..i];
        AddKeyword(keywords[i]);
      }
      assert keywords[..|keywords|] == keywords;
    }

    /** `Instance` */
    method Instance()
      requires Valid()
      modifies `records, `entries, `handles, `next, `alive
      ensures Valid() && alive && State() == old(Opened()) && handles == old(handles)
      ensures old(alive) ==> State() == old(State())
      ensures !old(alive) ==> entries.Keys == AllKeys(keywords)
      ensures Consistent() <==> old(Consistent())
    {
      hide Content.Balanced, Content.Orderly, Content.Matches, AllUsable, Content.AddKeywords, AllKeys;
      OpenValid(State(), keywords);
      if !alive {
        GoodAnyway(State());
        alive := true;
        AddKeywordsKeys(State(), keywords);
        AddKeywords();
      }
    }

    /** The end of the instance, with everything it holds, once nobody refers to it */
    method DeleteInstance()
      requires Counted(records, entries, handles) && handles == map[]
      modifies `records, `entries, `alive
      ensures entries == map[] && records == map[] && !alive
    {
      hide Refs;
      while entries != map[]
        invariant Counted(records, entries, handles)
        decreases |entries|
      {
        var k :| k in entries;
        SmallerMap(entries, k);
        RemoveEntry(k);
      }
      NothingLeft(records);
      alive := false;
    }

    // -------------------------------------------------------------- identifiers

    /** The C++ name that is created for an ASN.1 field name, which begins with '&' */
    method FieldName(p: string) returns (name: Result<string>)
      requires p != "" && (Key(Asn, p[1..]) in entries ==> entries[Key(Asn, p[1..])] in records)
      ensures name == State().FieldName(p)
    {
      hide AsnName;
      var key := Key(Asn, p[1..]);
      if key in entries {
        name := Ok(records[entries[key]].name);
      } else {
        name := AsnToName(p[1..]);
      }
    }

    /** An identifier of a record that has been found by its C++ name */
    method Found(kind: Kind, p: string, r: nat) returns (h: nat, clash: bool)
      requires r in records && Key(kind, p) !in entries
      modifies `records, `entries, `handles, `next
      ensures h == old(next) && State() == old(State()).Found(kind, p, r)
      ensures clash <==> old(records[r].In(kind)) !in {"", p}
    {
      h := Hold(r);
      clash := false;
      if records[r].In(kind) == "" {
        var _ := Learn(kind, p, r);
      } else if records[r].In(kind) != p {
        clash := true;
      }
    }

    /** An identifier with a new record, which is entered unless that is not wanted */
    method Fresh(kind: Kind, p: string, name: string, dontreg: bool) returns (h: nat)
      requires Key(kind, p) !in entries && kind != Name && (!dontreg ==> Key(Name, name) !in entries)
      modifies `records, `entries, `handles, `next
      ensures h == old(next) && State() == old(State()).Fresh(kind, p, name, dontreg)
    {
      h := NewRecord(Record(1, name, if kind.Asn? then p else "", if kind.Ttcn? then p else ""));
      if !dontreg {
        var _ := Enter(Key(Name, name), h);
        var _ := Enter(Key(kind, p), h);
      }
    }

    /** An identifier with a new record, which is entered under one name unless that is not wanted */
    method Own(k: Key, rec: Record, dontreg: bool) returns (h: nat)
      requires k !in entries
      modifies `records, `entries, `handles, `next
      ensures h == old(next) && State() == old(State()).Own(k, rec, dontreg)
    {
      h := NewRecord(rec);
      if !dontreg {
        var _ := Enter(k, h);
      }
    }

    /** The three kinds of identifiers */
    method CreateFor(kind: Kind, p: string, dontreg: bool) returns (h: Result<nat>, clash: bool)
      requires State().Orderly() && p != ""
      modifies `records, `entries, `handles, `next
      ensures h.Ok? <==> old(State()).Create(kind, p, dontreg).Ok?
      ensures h.Ok? ==> h.value == old(next) && State() == old(State()).Create(kind, p, dontreg).value
      ensures h.Ok? ==> clash == Clashes(old(State()), kind, p, dontreg)
    {
      hide Content.Orderly, Content.Own, Content.Fresh, Content.Found, Content.Hold, Content.FieldName, CppName;
      EntriesLive(State());
      clash := false;
      var k, held := Key(kind, p), 0;
      if k in entries {
        held := Hold(entries[k]);
      } else if kind.Name? {
        held := Own(k, Record(1, p, "", ""), dontreg);
      } else if kind.Asn? && p[0] == '&' {
        var name := FieldName(p);
        if name.Fatal? {
          return Fatal, false;
        }
        held := Own(k, Record(1, name.value, p, INVALID), dontreg);
      } else {
        var name := Cpp(kind, p);
        if !dontreg && Key(Name, name.value) in entries {
          held, clash := Found(kind, p, entries[Key(Name, name.value)]);
        } else {
          held := Fresh(kind, p, name.value, dontreg);
        }
      }
      h := Ok(held);
    }

    /** `Identifier::Identifier`; an empty name is a fatal error. */
    method Create(kind: Kind, p: string, dontreg: bool) returns (h: Result<nat>, clash: bool)
      requires Valid()
      modifies this
      ensures h.Ok? <==> p != "" && old(Opened()).Create(kind, p, dontreg).Ok?
      ensures h.Ok? ==> Valid() && alive && State() == old(Opened()).Create(kind, p, dontreg).value
      ensures h.Ok? ==> Created(old(Opened()), State(), h.value, kind, p, dontreg, clash)
      ensures h.Ok? ==> clash == Clashes(old(Opened()), kind, p, dontreg)
      ensures h.Ok? ==> (Consistent() <==> old(Consistent()))
    {
      hide Content.Balanced, Content.Orderly, Content.Matches, Content.Lost, Content.Create, AllUsable, Created, Clashes;
      clash := false;
      if p == "" {
        return Fatal, false;
      }
      Instance();
      counter := counter + 1;
      ghost var base := State();
      h, clash := CreateFor(kind, p, dontreg);
      if h.Ok? {
        CreateGood(base, kind, p, dontreg);
        CreateMeans(base, kind, p, dontreg);
        CreateCounts(base, kind, p, dontreg);
        MatchesExactly(base);
        MatchesExactly(State());
      }
    }

    /** The copy constructor */
    method Copy(from: nat) returns (h: nat)
      requires Valid() && from in handles
      modifies this
      ensures Valid() && h !in old(handles) && handles == old(handles)[h := old(handles[from])]
      ensures State() == old(State()).Hold(old(handles[from])) && entries == old(entries)
      ensures Consistent() <==> old(Consistent())
    {
      hide Content.Balanced, Content.Orderly, Content.Matches, Content.Lost, AllUsable;
      HandleLives(State(), from);
      HoldGood(State(), handles[from]);
      NextIsNew(State());
      OneMore(handles, next, handles[from]);
      MatchesExactly(State());
      counter := counter + 1;
      h := Hold(handles[from]);
      MatchesExactly(State());
    }

    /** `operator=` */
    method Assign(to: nat, from: nat)
      requires Valid() && to in handles && from in handles
      modifies this
      ensures Valid() && handles == old(handles)[to := old(handles[from])]
      ensures State() == old(State()).Assign(to, from) && entries == old(entries)
      ensures Consistent() <==> old(Consistent())
    {
      hide Content.Balanced, Content.Orderly, Content.Matches, Content.Lost, AllUsable;
      AssignGood(State(), to, from);
      MatchesExactly(State());
      if to != from {
        var r := handles[from];
        HandleLives(State(), to);
        StillHeld(State(), to, from);
        SameSize(handles, to, r);
        Release(to);
        Attach(to, r);
      }
      MatchesExactly(State());
    }

    /** The destructor; the last identifier takes the whole registry with it. */
    method Destroy(h: nat)
      requires Valid() && h in handles
      modifies this
      ensures Valid() && handles == old(handles) - {h} && State() == old(State()).Destroy(h)
      ensures old(counter) == 1 ==> records == map[] && entries == map[] && !alive && Consistent()
      ensures old(counter) > 1 ==> entries == old(entries) && alive && (Consistent() <==> old(Consistent()))
    {
      hide Content.Balanced, Content.Orderly, Content.Matches, Content.Lost, AllUsable, Counted;
      DestroyGood(State(), h);
      MatchesExactly(State());
      LastHandle(handles, h);
      HandleLives(State(), h);
      ReleaseGood(State(), h);
      Release(h);
      counter := counter - 1;
      if counter == 0 {
        CountsOf(State());
        DeleteInstance();
        NothingGood(next);
      }
      MatchesExactly(State());
    }

    // -------------------------------------------------------------- conversions of names

    method Cpp(kind: Kind, p: string) returns (name: Result<string>)
      requires kind != Name
      ensures name == if kind.Asn? && p == "" then Fatal else Ok(CppName(kind, p))
    {
      if kind.Asn? {
        name := AsnToName(p);
      } else {
        var n := TtcnToName(p);
        name := Ok(n);
      }
    }

    method Language(kind: Kind, p: string) returns (s: Result<string>)
      requires kind != Name
      ensures s == LanguageName(kind, p)
    {
      if kind.Asn? {
        s := NameToAsn(p);
      } else {
        s := NameToTtcn(p);
      }
    }

    /** `asn_2_name` and `ttcn_2_name`, when there is an instance */
    method ToName(kind: Kind, p: string) returns (name: Result<string>)
      requires Valid() && alive && kind != Name
      modifies `records, `entries
      ensures name.Ok? <==> old(State()).ToName(kind, p).Ok?
      ensures name.Ok? ==> Valid() && handles == old(handles) && State() == old(State()).ToName(kind, p).value
      ensures name.Ok? ==>
        var k := Key(kind, p);
        if k in old(entries) && !old(State()).Lacks(k, Name) then name.value == old(records[entries[k]].name)
        else name.value == CppName(kind, p)
      ensures name.Ok? ==> (Consistent() <==> old(Consistent()))
    {
      hide Content.Balanced, Content.Orderly, Content.Matches, Content.Lost, AllUsable, CppName, Content.Learn;
      ghost var c := State();
      EntriesLive(c);
      if Key(kind, p) in entries {
        var r := entries[Key(kind, p)];
        if records[r].name == "" {
          name := Cpp(kind, p);
          if name.Ok? {
            var ok := Learn(Name, name.value, r);
            if !ok {
              name := Fatal;
            }
          }
        } else {
          name := Ok(records[r].name);
        }
      } else {
        name := Cpp(kind, p);
        if name.Ok? && Key(Name, name.value) in entries {
          var r := entries[Key(Name, name.value)];
          if records[r].In(kind) == "" {
            var _ := Learn(kind, p, r);
          }
        }
      }
      if name.Ok? {
        ToNameGood(c, kind, p);
        MatchesExactly(c);
        MatchesExactly(State());
      }
    }

    /**
     `name_2_asn` and `name_2_ttcn`, when there is an instance; the keys are lost exactly when what is entered
     under the empty C++ name gets another one.
     */
    method FromName(kind: Kind, p: string) returns (s: Result<string>)
      requires Valid() && alive && kind != Name
      modifies `records, `entries
      ensures s.Ok? <==> old(State()).FromName(kind, p).Ok?
      ensures s.Ok? ==> Valid() && handles == old(handles) && State() == old(State()).FromName(kind, p).value
      ensures s.Ok? ==>
        var k := Key(Name, p);
        if k in old(entries) && !old(State()).Lacks(k, kind) then s.value == old(records[entries[k]].In(kind))
        else s == LanguageName(kind, p)
      ensures s.Ok? ==> (Consistent() <==> old(Consistent()) && !old(State()).Relabels(Op.FromName(kind, p)))
    {
      hide Content.Balanced, Content.Orderly, Content.Matches, Content.Lost, Content.Learn, Content.Relabels, AllUsable,
           LanguageName;
      ghost var c := State();
      EntriesLive(c);
      if Key(Name, p) in entries {
        var r := entries[Key(Name, p)];
        if records[r].In(kind) == "" {
          s := Language(kind, p);
          if s.Ok? {
            var ok := Learn(kind, s.value, r);
            if !ok {
              s := Fatal;
            }
          }
        } else {
          s := Ok(records[r].In(kind));
        }
      } else {
        s := Language(kind, p);
        if s.Ok? && Key(kind, s.value) in entries {
          var r := entries[Key(kind, s.value)];
          if records[r].name == "" {
            var _ := Learn(Name, p, r);
          }
        }
      }
      if s.Ok? {
        FromNameGood(c, kind, p);
        MatchesExactly(c);
        MatchesExactly(State());
      }
    }

    /** `is_reserved_word` in ASN.1 or TTCN-3, when there is an instance: the C++ name has another name there */
    method IsReserved(kind: Kind, p: string) returns (reserved: bool)
      requires Valid() && alive && kind != Name && p != ""
      modifies `records, `entries
      ensures Valid() && handles == old(handles) && State() == old(State()).IsReserved(kind, p)
      ensures reserved <==> Clashes(old(State()), kind, p, false)
      ensures Consistent() <==> old(Consistent())
    {
      hide Content.Balanced, Content.Orderly, Content.Matches, Content.Lost, AllUsable, CppName, Content.Learn;
      EntriesLive(State());
      IsReservedGood(State(), kind, p);
      MatchesExactly(State());
      MatchesExactly(State().IsReserved(kind, p));
      if (kind.Asn? && p[0] == '&') || Key(kind, p) in entries {
        return false;
      }
      var name := Cpp(kind, p);
      var k := Key(Name, name.value);
      if k !in entries {
        return false;
      }
      if records[entries[k]].In(kind) == "" {
        var _ := Learn(kind, p, entries[k]);
        return false;
      }
      reserved := records[entries[k]].In(kind) != p;
    }

    /** `get_asnname` and `get_ttcnname`, which remember the name but do not enter it */
    method GetName(h: nat, kind: Kind) returns (s: Result<string>)
      requires Valid() && h in handles && handles[h] in records && kind != Name
      modifies `records
      ensures s.Ok? <==> old(State()).GetName(h, kind).Ok?
      ensures s.Ok? ==> Valid() && State() == old(State()).GetName(h, kind).value
      ensures s.Ok? ==> handles[h] in records && records[handles[h]].In(kind) == s.value
      ensures old(records[handles[h]].In(kind)) == "" ==> s == LanguageName(kind, old(records[handles[h]].name))
      ensures s.Ok? ==> (Consistent() <==> old(Consistent()))
    {
      hide Content.Balanced, Content.Orderly, Content.Matches, Content.Lost, AllUsable, LanguageName;
      ghost var c := State();
      var r := handles[h];
      if records[r].In(kind) == "" {
        s := Language(kind, records[r].name);
        if s.Ok? {
          records := records[r := records[r].With(kind, s.value)];
        }
      } else {
        s := Ok(records[r].In(kind));
      }
      if s.Ok? {
        GetNameGood(c, h, kind);
        MatchesExactly(c);
        MatchesExactly(State());
      }
    }

    // -------------------------------------------------------------- runs

    method Step(op: Op) returns (ok: bool)
      requires Valid()
      modifies this
      ensures ok <==> old(State()).Next(keywords, op).Ok?
      ensures ok ==> Valid() && State() == old(State()).Next(keywords, op).value
    {
      hide Content.Balanced, Content.Orderly, AllUsable, Content.Open, Content.Create, Content.ToName, Content.FromName,
           Content.IsReserved, Content.GetName, Content.Assign, Content.Destroy, Content.Relabels, Created, Clashes;
      ok := true;
      if State().Possible(op) {
        match op {
          case Create(kind, p, dontreg) =>
            var h, clash := Create(kind, p, dontreg);
            ok := h.Ok?;
          case Copy(h) => var _ := Copy(h);
          case Assign(to, from) => Assign(to, from);
          case Destroy(h) => Destroy(h);
          case GetName(h, kind) =>
            HandleLives(State(), h);
            var s := GetName(h, kind);
            ok := s.Ok?;
          case ToName(kind, p) =>
            Instance();
            var name := ToName(kind, p);
            ok := name.Ok?;
          case FromName(kind, p) =>
            Instance();
            var s := FromName(kind, p);
            ok := s.Ok?;
          case IsReserved(kind, p) =>
            if p == "" {
              ok := false;
            } else {
              Instance();
              var _ := IsReserved(kind, p);
            }
        }
      }
    }
  }

  lemma GoodAnyway(c: Content)
    requires c.Good()
    ensures c.(alive := true).Good()
  {
    hide Counted, AsnName;
  }

  lemma CountsOf(c: Content)
    requires c.Good()
    ensures Counted(c.records, c.entries, c.handles)
  {
    hide Counted, Content.Orderly;
  }

  /** One handle more. */
  lemma CreateCounts(c: Content, kind: Kind, p: string, dontreg: bool)
    requires c.Good() && p != "" && c.Create(kind, p, dontreg).Ok?
    ensures |c.Create(kind, p, dontreg).value.handles| == |c.handles| + 1
  {
    hide Content.Balanced, Content.Orderly, Content.Create, EntriesAfter, Kept, NewName, Clashes;
    CreateMeans(c, kind, p, dontreg);
    var d := c.Create(kind, p, dontreg).value;
    OneMore(c.handles, c.next, d.handles[c.next]);
  }

  lemma OneMore(m: map<nat, nat>, h: nat, r: nat)
    requires h !in m
    ensures |m[h := r]| == |m| + 1
  {
    assert m[h := r].Keys == m.Keys + {h};
  }

  lemma LastHandle(m: map<nat, nat>, h: nat)
    requires h in m
    ensures |m - {h}| == |m| - 1 && (|m| == 1 <==> m.Keys == {h}) && (|m| == 1 ==> m - {h} == map[])
  {
    var rest := m.Keys - {h};
    assert (m - {h}).Keys == rest && m.Keys == rest + {h};
    assert |m| == 1 <==> |rest| == 0;
    assert |rest| == 0 <==> rest == {};
  }

  lemma SameSize(m: map<nat, nat>, h: nat, r: nat)
    requires h in m
    ensures |m[h := r]| == |m| && (m - {h})[h := r] == m[h := r]
  {
    assert m[h := r].Keys == m.Keys;
  }

  lemma SmallerMap<K, V>(m: map<K, V>, k: K)
    requires k in m
    ensures |m - {k}| < |m|
  {
    assert (m - {k}).Keys == m.Keys - {k};
  }

  lemma {:induction false} FatalStays(keywords: seq<Keyword>, ops: seq<Op>, i: nat)
    requires AllUsable(keywords) && i <= |ops| && After(keywords, ops[..i]).Fatal?
    ensures After(keywords, ops).Fatal?
  {
    hide Content.Next, Content.Valid, AllUsable;
    if i == |ops| {
      assert ops[..i] == ops;
    } else {
      assert ops[..|ops| - 1][..i] == ops[..i];
      FatalStays(keywords, ops[..|ops| - 1], i);
    }
  }

  /**
   Whatever is done with identifiers: the registry holds what the run on values leaves, and a fatal error ends
   both. Every record is counted once for each handle and each entry, none that is referred to is freed, and
   exactly when the keys of the entries are the names; in any case without names of two ampersands.
   */
  method Run(keywords: seq<Keyword>, ops: seq<Op>) returns (reg: Registry, fatal: bool)
    requires AllUsable(keywords)
    ensures fresh(reg) && reg.keywords == keywords
    ensures fatal <==> After(keywords, ops).Fatal?
    ensures !fatal ==> reg.Valid() && reg.State() == After(keywords, ops).value
    ensures !fatal ==> (reg.Consistent() <==> !LosesKeys(keywords, ops))
    ensures !fatal && (forall i :: 0 <= i < |ops| ==> ops[i].IsRegular()) ==> reg.Consistent()
  {
    hide Content.Balanced, Content.Orderly, Content.Matches, AllUsable, Content.Next, LosesKeys, Op.IsRegular;
    reg := new Registry(keywords);
    assert ops[..0] == [];
    for i := 0 to |ops|
      invariant fresh(reg) && reg.Valid() && reg.keywords == keywords
      invariant After(keywords, ops[..i]).Ok? && reg.State() == After(keywords, ops[..i]).value
    {
      assert ops[..i + 1][..i] == ops[..i];
      var ok := reg.Step(ops[i]);
      if !ok {
        FatalStays(keywords, ops, i + 1);
        return reg, true;
      }
    }
    assert ops[..|ops|] == ops;
    KeysExactly(keywords, ops);
    if forall i :: 0 <= i < |ops| ==> ops[i].IsRegular() {
      RegularKeepsKeys(keywords, ops);
    }
    fatal := false;
  }

  /**
   After every run that is not fatal: a word that is not registered is reserved, and clashes when an identifier is
   created, if its C++ name is that of a keyword that has no name in the language.
   */
  method CheckReserved(keywords: seq<Keyword>, ops: seq<Op>, ghost i: nat, kind: Kind, p: string)
    returns (reg: Registry, fatal: bool, registered: bool, reserved: bool, clash: bool)
    requires AllUsable(keywords) && i < |keywords| && IsFirst(keywords, i) && IsMissing(keywords[i], kind)
    requires p != "" && p != "<invalid>" && !(kind.Asn? && p[0] == '&') && CppName(kind, p) == keywords[i].name
    ensures fatal <==> After(keywords, ops).Fatal?
    ensures !fatal ==> (registered <==> Key(kind, p) in After(keywords, ops).value.Open(keywords).entries)
    ensures !fatal && !registered ==> reserved && clash
  {
    hide Content.Balanced, Content.Orderly, Content.Matches, AllUsable, Content.Create, Content.AddKeywords, After,
         LosesKeys, IsFirst, CppName, Created, Content.IsReserved;
    registered, reserved, clash := false, false, false;
    reg, fatal := Run(keywords, ops);
    if fatal {
      return;
    }
    KeywordsClash(keywords, ops, i, kind, p);
    reg.Instance();
    ghost var c := reg.State();
    registered := Key(kind, p) in reg.entries;
    reserved := reg.IsReserved(kind, p);
    if !registered {
      ReservedChangesNothing(c, kind, p);
      CreatesAnyway(c, kind, p);
      var h;
      h, clash := reg.Create(kind, p, false);
    }
  }

  lemma ReservedChangesNothing(c: Content, kind: Kind, p: string)
    requires kind != Name && p != "" && Clashes(c, kind, p, false)
    ensures c.IsReserved(kind, p) == c
  {
    hide CppName;
  }

  lemma CreatesAnyway(c: Content, kind: Kind, p: string)
    requires c.Good() && p != "" && !(kind.Asn? && p[0] == '&')
    ensures c.Create(kind, p, false).Ok?
  {
    hide Content.Balanced, Content.Orderly, CppName;
  }

  // ---------------------------------------------------------------- a run that loses the keys

  lemma AmpersandHasNoName()
    ensures AsnName("&") == "" && AsnName("&&") == ""
  {
    hide IndexOf;
    NothingHidden("&");
    NothingHidden("&&");
    SubstituteFirst("&", 1, '-', "__");
    SubstituteFirst("&", 1, '.', "_");
    SubstituteFirst("&&", 2, '-', "__");
    SubstituteFirst("&&", 2, '.', "_");
    assert "&"[1..] == "" && "&&"[1..] == "&";
    assert Substitute("&", '&', "") == "" + Substitute("", '&', "");
    assert Substitute("&&", '&', "") == "" + Substitute("&", '&', "");
  }

  lemma NothingHidden(s: string)
    requires '.' !in s
    ensures Unhidden(s) == s
  {
  }

  lemma AmpersandInAsn()
    ensures LanguageName(Asn, "&&") == Ok("&&")
  {
    var s := "&&";
    assert StripLeft(s, '_') == s && StripRight(s, '_') == s;
    assert s[1..] == "&" && s[1..][1..] == "";
    assert Collapse("&", '-') == ['&'] + Collapse("", '-');
    assert Collapse(s, '-') == ['&'] + Collapse(s[1..], '-') == s;
    SubstituteFirst(s, 2, '_', "-");
  }

  /** "&&" gets a record without a C++ name, */
  lemma CreatesNameless(c: Content)
    requires c.Good() && Key(Asn, "&&") !in c.entries && Key(Asn, "&") !in c.entries
    ensures var d := c.Create(Asn, "&&", false);
      d.Ok? && d.value.entries == c.entries[Key(Asn, "&&") := c.next] && d.value.Lacks(Key(Asn, "&&"), Name)
  {
    hide Content.Balanced, Content.Orderly, AsnName;
    AmpersandHasNoName();
    EntriesLive(c);
    assert "&&"[1..] == "&";
  }

  /** which is entered under the empty one, */
  lemma ToNothing(c: Content)
    requires c.Lacks(Key(Asn, "&&"), Name) && NO_NAME !in c.entries
    ensures var d := c.ToName(Asn, "&&");
      d.Ok? && d.value.entries == c.entries[NO_NAME := c.entries[Key(Asn, "&&")]] && d.value.Lacks(Key(Asn, "&&"), Name)
  {
    hide AsnName;
    AmpersandHasNoName();
  }

  /** until another one is found for it. */
  lemma FromAmpersands(c: Content)
    requires c.Lacks(Key(Asn, "&&"), Name) && Key(Name, "&&") !in c.entries
    ensures var r := c.entries[Key(Asn, "&&")];
      var d := c.FromName(Asn, "&&");
      d.Ok? && d.value.entries == c.entries[Key(Name, "&&") := r] &&
      r in d.value.records && d.value.records[r].name == "&&"
  {
    hide LanguageName;
    AmpersandInAsn();
  }

  /**
   A name that leaves nothing for C++ can leave a key that is not the name of its record: "&&" is created,
   converted to C++, and then a C++ name is converted to it. Only the last step loses it. No keyword stands in
   the way.
   */
  method EmptyName(keywords: seq<Keyword>) returns (reg: Registry)
    requires AllUsable(keywords)
    requires {Key(Asn, "&"), Key(Asn, "&&"), Key(Name, "&&"), NO_NAME} !! AllKeys(keywords)
    ensures fresh(reg) && reg.Valid() && !reg.Consistent()
    ensures NO_NAME in reg.entries && reg.entries[NO_NAME] in reg.records
    ensures reg.records[reg.entries[NO_NAME]].name == "&&"
  {
    hide Content.Balanced, Content.Orderly, Content.Matches, Content.Create, Content.ToName, Content.FromName,
         Content.Relabels, AllUsable, AsnName, LanguageName, AllKeys, Created;
    reg := new Registry(keywords);
    reg.Instance();
    CreatesNameless(reg.State());
    var h, clash := reg.Create(Asn, "&&", false);
    ToNothing(reg.State());
    var name := reg.ToName(Asn, "&&");
    assert reg.Consistent();
    FromAmpersands(reg.State());
    var asnname := reg.FromName(Asn, "&&");
    NotTheName(reg.State());
  }

  lemma NotTheName(c: Content)
    requires NO_NAME in c.entries && c.entries[NO_NAME] in c.records && c.records[c.entries[NO_NAME]].name != ""
    ensures !c.Matches()
  {
    assert NO_NAME.name == "" && NO_NAME.kind == Name;
  }
}
