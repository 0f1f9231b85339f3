/** The subsystem classifier: the parent machines of one source file, followed
    by the ROM-bearing devices they reference directly (one hop), as names. */
module Subsystems {
  import opened Common
  import opened Seqs
  import opened Catalog

  /** A record the classifier keeps by itself: it belongs to the requested
      source file and is not a clone. A null `sourcefile` never matches. */
  predicate IsPrimary(m: Machine, sourcefile: string) {
    m.sourcefile == Some(sourcefile) && IsParent(m)
  }

  /** The primary records, in catalog order. */
  function PrimaryRecords(c: seq<Machine>, key: string): (r: seq<Machine>)
    ensures forall m :: m in r <==> m in c && IsPrimary(m, key)
    ensures Subsequence(r, c)
  {
    if c == [] then []
    else
      var front, last := PrimaryRecords(c[..|c| - 1], key), c[|c| - 1];
      if IsPrimary(last, key) then
        assert (front + [last])[..|front|] == front;
        front + [last]
      else front
  }

  /** The names of `ms`, position by position. */
  function NamesOf(ms: seq<Machine>): (r: seq<Name>)
    ensures |r| == |ms|
    ensures forall i :: 0 <= i < |ms| ==> r[i] == ms[i].name
  {
    seq(|ms|, i requires 0 <= i < |ms| => ms[i].name)
  }

  /** The primary names in the iteration order of the name-keyed dict of
      primaries: each name once, at its first primary occurrence. */
  function PrimaryNames(c: seq<Machine>, key: string): seq<Name> {
    Dedup(NamesOf(PrimaryRecords(c, key)))
  }

  /** The record that dict holds for `n`: later primary records with the same
      name overwrite earlier ones, so it is the last one. */
  function PrimaryRecord(c: seq<Machine>, key: string, n: Name): Option<Machine> {
    if c == [] then None
    else if IsPrimary(c[|c| - 1], key) && c[|c| - 1].name == n then Some(c[|c| - 1])
    else PrimaryRecord(c[..|c| - 1], key, n)
  }

  /** The record held for `n` is the last primary record named `n`, and there is
      one exactly when some primary record has that name. */
  lemma {:induction false} PrimaryRecordIsLast(c: seq<Machine>, key: string, n: Name)
    ensures PrimaryRecord(c, key, n).None? <==> forall i :: 0 <= i < |c| ==> !(IsPrimary(c[i], key) && c[i].name == n)
    ensures PrimaryRecord(c, key, n).Some? ==>
              exists i :: 0 <= i < |c| && c[i] == PrimaryRecord(c, key, n).value && IsPrimary(c[i], key) && c[i].name == n
                          && forall j :: i < j < |c| && IsPrimary(c[j], key) ==> c[j].name != n
  {
    PrimaryRecordAbsent(c, key, n);
    if c != [] {
      var k := |c| - 1;
      var c0 := c[..k];
      PrimaryRecordIsLast(c0, key, n);
      assert forall i :: 0 <= i < k ==> c0[i] == c[i];
      if IsPrimary(c[k], key) && c[k].name == n {
        assert PrimaryRecord(c, key, n) == Some(c[k]);
      } else if PrimaryRecord(c0, key, n).Some? {
        var i :| 0 <= i < k && c0[i] == PrimaryRecord(c0, key, n).value && IsPrimary(c0[i], key) && c0[i].name == n
                 && forall j :: i < j < k && IsPrimary(c0[j], key) ==> c0[j].name != n;
        assert c[i] == PrimaryRecord(c, key, n).value;
        assert forall j :: i < j < |c| && IsPrimary(c[j], key) ==> c[j].name != n;
      }
    }
  }

  lemma {:induction false} PrimaryRecordAbsent(c: seq<Machine>, key: string, n: Name)
    ensures PrimaryRecord(c, key, n).None? <==> forall i :: 0 <= i < |c| ==> !(IsPrimary(c[i], key) && c[i].name == n)
  {
    if c != [] {
      var c0 := c[..|c| - 1];
      PrimaryRecordAbsent(c0, key, n);
      assert forall i :: 0 <= i < |c0| ==> c0[i] == c[i];
    }
  }

  /** The device references examined for primary name `n`. */
  function RefsOf(c: seq<Machine>, key: string, n: Name): seq<Name> {
    match PrimaryRecord(c, key, n)
    case None => []
    case Some(m) => m.deviceRefs
  }

  /** Every device reference examined, primary by primary, each in its list order. */
  function Discovery(c: seq<Machine>, key: string, prims: seq<Name>): (r: seq<Name>)
    ensures forall d :: d in r <==> exists k :: 0 <= k < |prims| && d in RefsOf(c, key, prims[k])
  {
    if prims == [] then []
    else
      var r := Discovery(c, key, prims[..|prims| - 1]) + RefsOf(c, key, prims[|prims| - 1]);
      assert forall k :: 0 <= k < |prims| - 1 ==> prims[..|prims| - 1][k] == prims[k];
      r
  }

  /** A referenced device is added when it names a catalog machine whose (last)
      record has ROMs and it is not itself one of the primaries. */
  predicate Qualifies(c: seq<Machine>, primaries: seq<Name>, d: Name) {
    ResolvesWithRoms(c, d) && d !in primaries
  }

  /** The qualifying references of `s`, in order. */
  function KeepQualifying(c: seq<Machine>, primaries: seq<Name>, s: seq<Name>): seq<Name> {
    if s == [] then []
    else KeepQualifying(c, primaries, s[..|s| - 1]) + (if Qualifies(c, primaries, s[|s| - 1]) then [s[|s| - 1]] else [])
  }

  /** A reference is kept exactly when it qualifies. */
  lemma {:induction false} KeepQualifyingMembers(c: seq<Machine>, primaries: seq<Name>, s: seq<Name>, d: Name)
    ensures d in KeepQualifying(c, primaries, s) <==> d in s && Qualifies(c, primaries, d)
  {
    if s != [] {
      var front := s[..|s| - 1];
      KeepQualifyingMembers(c, primaries, front, d);
      assert s == front + [s[|s| - 1]];
    }
  }

  /** The devices added by the one-hop closure, in discovery order. */
  function Additional(c: seq<Machine>, key: string): seq<Name> {
    var primaries := PrimaryNames(c, key);
    Dedup(KeepQualifying(c, primaries, Discovery(c, key, primaries)))
  }

  /** The classification: primaries first, then the added devices; both
      deduplicated, in first-occurrence order. No name occurs twice, and a name
      is in it exactly when it names a primary record, or, not naming one, it is
      referenced by the walked record of some primary name and the last catalog
      record so named has ROMs. A reference naming no catalog machine is
      therefore never in it. */
  function Classification(c: seq<Machine>, key: string): (r: seq<Name>)
    ensures NoDup(r)
    ensures forall x :: x in r <==>
              || NamedPrimary(c, key, x)
              || (!NamedPrimary(c, key, x) && ReferencedByPrimary(c, key, x) && LastRecordHasRoms(c, x))
  {
    PrimariesThenAdded(c, key);
    PrimaryNames(c, key) + Additional(c, key)
  }

  /** Appending a record extends the primary records when it is primary. */
  lemma PrimaryRecordsSnoc(c: seq<Machine>, m: Machine, key: string)
    ensures PrimaryRecords(c + [m], key) == PrimaryRecords(c, key) + (if IsPrimary(m, key) then [m] else [])
  {
    assert (c + [m])[..|c|] == c;
  }

  /** The names of one more record. */
  lemma NamesOfSnoc(ms: seq<Machine>, m: Machine)
    ensures NamesOf(ms + [m]) == NamesOf(ms) + [m.name]
  {
  }

  /** Appending a record extends the primary names when it is primary and its name is new. */
  lemma PrimaryNamesSnoc(c: seq<Machine>, m: Machine, key: string)
    ensures PrimaryNames(c + [m], key) ==
            if IsPrimary(m, key) && m.name !in PrimaryNames(c, key) then PrimaryNames(c, key) + [m.name]
            else PrimaryNames(c, key)
  {
    PrimaryRecordsSnoc(c, m, key);
    if IsPrimary(m, key) {
      NamesOfSnoc(PrimaryRecords(c, key), m);
      DedupSnoc(NamesOf(PrimaryRecords(c, key)), m.name);
    } else {
      assert PrimaryRecords(c + [m], key) == PrimaryRecords(c, key);
    }
  }

  /** Appending a primary record makes it the record held for its name. */
  lemma PrimaryRecordSnoc(c: seq<Machine>, m: Machine, key: string, n: Name)
    ensures PrimaryRecord(c + [m], key, n) == if IsPrimary(m, key) && m.name == n then Some(m) else PrimaryRecord(c, key, n)
  {
    assert (c + [m])[..|c|] == c;
  }

  /** Appending a reference extends the kept references when it qualifies. */
  lemma KeepQualifyingSnoc(c: seq<Machine>, primaries: seq<Name>, s: seq<Name>, d: Name)
    ensures KeepQualifying(c, primaries, s + [d]) == KeepQualifying(c, primaries, s) + (if Qualifies(c, primaries, d) then [d] else [])
  {
    assert (s + [d])[..|s|] == s;
  }

  /** `{m['name']: m for m in catalog}`: each name mapped to its last record. */
  method IndexByName(catalog: seq<Machine>) returns (all: map<Name, Machine>)
    ensures forall n :: n in all <==> Lookup(catalog, n).Some?
    ensures forall n :: n in all ==> Lookup(catalog, n) == Some(all[n])
  {
    all := map[];
    var k := 0;
    while k < |catalog|
      invariant 0 <= k <= |catalog|
      invariant forall n :: n in all <==> Lookup(catalog[..k], n).Some?
      invariant forall n :: n in all ==> Lookup(catalog[..k], n) == Some(all[n])
    {
      assert catalog[..k + 1] == catalog[..k] + [catalog[k]];
      forall n ensures Lookup(catalog[..k + 1], n) == if catalog[k].name == n then Some(catalog[k]) else Lookup(catalog[..k], n) {
        LookupSnoc(catalog[..k], catalog[k], n);
      }
      all := all[catalog[k].name := catalog[k]];
      k := k + 1;
    }
    assert catalog[..k] == catalog;
  }

  /** The dict of primaries, name-keyed: its keys in insertion order and its
      values (the last primary record of each name). */
  method IndexPrimaries(catalog: seq<Machine>, sourcefile: string) returns (primaries: seq<Name>, filtered: map<Name, Machine>)
    ensures primaries == PrimaryNames(catalog, sourcefile)
    ensures forall n :: n in filtered <==> n in primaries
    ensures forall n :: n in filtered ==> PrimaryRecord(catalog, sourcefile, n) == Some(filtered[n])
  {
    primaries := [];
    filtered := map[];
    var k := 0;
    while k < |catalog|
      invariant 0 <= k <= |catalog|
      invariant primaries == PrimaryNames(catalog[..k], sourcefile)
      invariant forall n :: n in filtered <==> n in primaries
      invariant forall n :: n in filtered ==> PrimaryRecord(catalog[..k], sourcefile, n) == Some(filtered[n])
    {
      primaries, filtered := IndexPrimary(catalog, sourcefile, k, primaries, filtered);
      k := k + 1;
    }
    assert catalog[..k] == catalog;
  }

  /** One step of that loop, on record `catalog[k]`: a primary record
      overwrites the entry of its name, and a new name is appended to the keys. */
  method IndexPrimary(catalog: seq<Machine>, sourcefile: string, k: nat, primaries: seq<Name>, filtered: map<Name, Machine>)
    returns (primaries': seq<Name>, filtered': map<Name, Machine>)
    requires k < |catalog|
    requires primaries == PrimaryNames(catalog[..k], sourcefile)
    requires forall n :: n in filtered <==> n in primaries
    requires forall n :: n in filtered ==> PrimaryRecord(catalog[..k], sourcefile, n) == Some(filtered[n])
    ensures primaries' == PrimaryNames(catalog[..k + 1], sourcefile)
    ensures forall n :: n in filtered' <==> n in primaries'
    ensures forall n :: n in filtered' ==> PrimaryRecord(catalog[..k + 1], sourcefile, n) == Some(filtered'[n])
  {
    var m := catalog[k];
    primaries', filtered' := primaries, filtered;
    if IsPrimary(m, sourcefile) {
      if m.name !in filtered {
        primaries' := primaries + [m.name];
      }
      filtered' := filtered[m.name := m];
    }
    IndexStepNames(catalog, sourcefile, k, primaries, filtered, primaries');
    IndexStepRecords(catalog, sourcefile, k, filtered, filtered');
  }

  /** The keys after one step of that loop: a new primary name is appended. */
  lemma IndexStepNames(catalog: seq<Machine>, sourcefile: string, k: nat, primaries: seq<Name>,
                       filtered: map<Name, Machine>, primaries': seq<Name>)
    requires k < |catalog|
    requires primaries == PrimaryNames(catalog[..k], sourcefile)
    requires forall n :: n in filtered <==> n in primaries
    requires primaries' == if IsPrimary(catalog[k], sourcefile) && catalog[k].name !in filtered
                           then primaries + [catalog[k].name] else primaries
    ensures primaries' == PrimaryNames(catalog[..k + 1], sourcefile)
  {
    assert catalog[..k + 1] == catalog[..k] + [catalog[k]];
    PrimaryNamesSnoc(catalog[..k], catalog[k], sourcefile);
  }

  /** The values after one step of that loop: a primary record overwrites the entry of its name. */
  lemma IndexStepRecords(catalog: seq<Machine>, sourcefile: string, k: nat,
                         filtered: map<Name, Machine>, filtered': map<Name, Machine>)
    requires k < |catalog|
    requires forall n :: n in filtered ==> PrimaryRecord(catalog[..k], sourcefile, n) == Some(filtered[n])
    requires filtered' == if IsPrimary(catalog[k], sourcefile) then filtered[catalog[k].name := catalog[k]] else filtered
    ensures forall n :: n in filtered' ==> PrimaryRecord(catalog[..k + 1], sourcefile, n) == Some(filtered'[n])
  {
    var m := catalog[k];
    assert catalog[..k + 1] == catalog[..k] + [m];
    forall n | n in filtered'
      ensures PrimaryRecord(catalog[..k + 1], sourcefile, n) == Some(filtered'[n])
    {
      PrimaryRecordSnoc(catalog[..k], m, sourcefile, n);
    }
  }

  /** The two dicts the walk consults: every catalog name mapped to its last
      record, and the primaries as keys. */
  ghost predicate Indexes(catalog: seq<Machine>, all: map<Name, Machine>, primaries: seq<Name>, filtered: map<Name, Machine>) {
    && (forall n :: n in all <==> Lookup(catalog, n).Some?)
    && (forall n :: n in all ==> Lookup(catalog, n) == Some(all[n]))
    && (forall n :: n in filtered <==> n in primaries)
  }

  /** The walk over one primary's device references: each reference that
      resolves, is neither primary nor already added, and has ROMs is appended. */
  method AddDevices(catalog: seq<Machine>, all: map<Name, Machine>, primaries: seq<Name>,
                    filtered: map<Name, Machine>, ghost before: seq<Name>, refs: seq<Name>, added: seq<Name>)
    returns (additional: seq<Name>)
    requires Indexes(catalog, all, primaries, filtered)
    requires added == Dedup(KeepQualifying(catalog, primaries, before))
    ensures additional == Dedup(KeepQualifying(catalog, primaries, before + refs))
  {
    additional := added;
    var j := 0;
    ghost var walk := before;
    assert refs[..0] == [];
    while j < |refs|
      invariant 0 <= j <= |refs|
      invariant walk == before + refs[..j]
      invariant additional == Dedup(KeepQualifying(catalog, primaries, walk))
    {
      additional := AddDevice(catalog, all, primaries, filtered, walk, refs[j], additional);
      TakeNext(refs, j);
      walk := walk + [refs[j]];
      j := j + 1;
    }
    assert refs[..j] == refs;
  }

  /** One step of that walk, on reference `d`. */
  method AddDevice(catalog: seq<Machine>, all: map<Name, Machine>, primaries: seq<Name>,
                   filtered: map<Name, Machine>, ghost walk: seq<Name>, d: Name, added: seq<Name>)
    returns (additional: seq<Name>)
    requires Indexes(catalog, all, primaries, filtered)
    requires added == Dedup(KeepQualifying(catalog, primaries, walk))
    ensures additional == Dedup(KeepQualifying(catalog, primaries, walk + [d]))
  {
    AddDeviceStep(catalog, all, primaries, filtered, walk, d, added);
    additional := added;
    if d in all && d !in filtered && d !in added && all[d].roms != [] {
      additional := additional + [d];
    }
  }

  /** One step of that walk: the reference is appended exactly when it is
      indexed, not a primary, not yet added, and its indexed record has ROMs. */
  lemma AddDeviceStep(catalog: seq<Machine>, all: map<Name, Machine>, primaries: seq<Name>,
                      filtered: map<Name, Machine>, walk: seq<Name>, d: Name, added: seq<Name>)
    requires Indexes(catalog, all, primaries, filtered)
    requires added == Dedup(KeepQualifying(catalog, primaries, walk))
    ensures Dedup(KeepQualifying(catalog, primaries, walk + [d])) ==
            if d in all && d !in filtered && d !in added && all[d].roms != [] then added + [d] else added
  {
    var kept := KeepQualifying(catalog, primaries, walk);
    KeepQualifyingSnoc(catalog, primaries, walk, d);
    DedupSnoc(kept, d);
    QualifiesByIndex(catalog, all, primaries, filtered, d);
    if Qualifies(catalog, primaries, d) {
      assert KeepQualifying(catalog, primaries, walk + [d]) == kept + [d];
    } else {
      assert KeepQualifying(catalog, primaries, walk + [d]) == kept;
    }
  }


  /** The qualification test as the dicts answer it. */
  lemma QualifiesByIndex(catalog: seq<Machine>, all: map<Name, Machine>, primaries: seq<Name>,
                         filtered: map<Name, Machine>, d: Name)
    requires Indexes(catalog, all, primaries, filtered)
    ensures Qualifies(catalog, primaries, d) <==> d in all && d !in filtered && all[d].roms != []
  {
  }

  /** filter_mame_json_by_criteria, as written: build the name-keyed dicts of all
      machines and of primaries, walk every primary's device references in
      order, and output the names, primaries first. */
  method FilterByCriteria(catalog: seq<Machine>, sourcefile: string) returns (names: seq<Name>)
    ensures names == Classification(catalog, sourcefile)
  {
    var all := IndexByName(catalog);
    var primaries, filtered := IndexPrimaries(catalog, sourcefile);
    var additional: seq<Name> := [];
    var i := 0;
    while i < |primaries|
      invariant 0 <= i <= |primaries|
      invariant additional == Dedup(KeepQualifying(catalog, primaries, Discovery(catalog, sourcefile, primaries[..i])))
    {
      assert primaries[i] in filtered;
      var refs := filtered[primaries[i]].deviceRefs;
      ghost var before := Discovery(catalog, sourcefile, primaries[..i]);
      assert primaries[..i + 1][..i] == primaries[..i];
      assert Discovery(catalog, sourcefile, primaries[..i + 1]) == before + refs;
      additional := AddDevices(catalog, all, primaries, filtered, before, refs, additional);
      i := i + 1;
    }
    assert primaries[..i] == primaries;
    names := primaries + additional;
  }

  // ---------------------------------------------------------------------------
  // What the classification contains, stated over catalog positions only.

  /** Some primary record is named `x`. */
  ghost predicate NamedPrimary(c: seq<Machine>, key: string, x: Name) {
    exists i :: 0 <= i < |c| && IsPrimary(c[i], key) && c[i].name == x
  }

  /** Record `i` is primary and no later primary record shares its name: the
      record whose device references are walked for that name. */
  ghost predicate LastPrimaryOfName(c: seq<Machine>, key: string, i: int)
    requires 0 <= i < |c|
  {
    IsPrimary(c[i], key) && forall j :: i < j < |c| && IsPrimary(c[j], key) ==> c[j].name != c[i].name
  }

  /** `x` is among the device references walked. */
  ghost predicate ReferencedByPrimary(c: seq<Machine>, key: string, x: Name) {
    exists i :: 0 <= i < |c| && LastPrimaryOfName(c, key, i) && x in c[i].deviceRefs
  }

  /** The last record named `x` has ROMs. */
  ghost predicate LastRecordHasRoms(c: seq<Machine>, x: Name) {
    exists i :: 0 <= i < |c| && c[i].name == x && c[i].roms != [] && forall j :: i < j < |c| ==> c[j].name != x
  }

  /** The primary names are exactly the names of primary records. */
  lemma PrimaryNamesMembers(c: seq<Machine>, key: string, x: Name)
    ensures x in PrimaryNames(c, key) <==> NamedPrimary(c, key, x)
  {
    var rs := PrimaryRecords(c, key);
    var ns := NamesOf(rs);
    if x in ns {
      var k :| 0 <= k < |ns| && ns[k] == x;
      assert rs[k] in rs;
      var i :| 0 <= i < |c| && c[i] == rs[k];
    }
    if NamedPrimary(c, key, x) {
      var i :| 0 <= i < |c| && IsPrimary(c[i], key) && c[i].name == x;
      assert c[i] in rs;
      var k :| 0 <= k < |rs| && rs[k] == c[i];
      assert ns[k] == x;
    }
  }

  /** Resolving with ROMs means the last record of that name has ROMs. */
  lemma ResolvesMeansLastHasRoms(c: seq<Machine>, x: Name)
    ensures ResolvesWithRoms(c, x) <==> LastRecordHasRoms(c, x)
  {
    if LastRecordHasRoms(c, x) {
      var i :| 0 <= i < |c| && c[i].name == x && c[i].roms != [] && forall j :: i < j < |c| ==> c[j].name != x;
      var i' :| 0 <= i' < |c| && c[i'] == Lookup(c, x).value && c[i'].name == x
                && forall j :: i' < j < |c| ==> c[j].name != x;
      assert i == i';
    }
  }

  /** The walked references are those of the last primary record of each primary name. */
  lemma DiscoveryMembers(c: seq<Machine>, key: string, x: Name)
    ensures x in Discovery(c, key, PrimaryNames(c, key)) <==> ReferencedByPrimary(c, key, x)
  {
    var prims := PrimaryNames(c, key);
    if x in Discovery(c, key, prims) {
      var k :| 0 <= k < |prims| && x in RefsOf(c, key, prims[k]);
      PrimaryRecordIsLast(c, key, prims[k]);
      var i :| 0 <= i < |c| && c[i] == PrimaryRecord(c, key, prims[k]).value && IsPrimary(c[i], key) && c[i].name == prims[k]
               && forall j :: i < j < |c| && IsPrimary(c[j], key) ==> c[j].name != prims[k];
      assert LastPrimaryOfName(c, key, i);
    }
    if ReferencedByPrimary(c, key, x) {
      var i :| 0 <= i < |c| && LastPrimaryOfName(c, key, i) && x in c[i].deviceRefs;
      var n := c[i].name;
      PrimaryNamesMembers(c, key, n);
      var k :| 0 <= k < |prims| && prims[k] == n;
      PrimaryRecordIsLast(c, key, n);
      var i' :| 0 <= i' < |c| && c[i'] == PrimaryRecord(c, key, n).value && IsPrimary(c[i'], key) && c[i'].name == n
                && forall j :: i' < j < |c| && IsPrimary(c[j], key) ==> c[j].name != n;
      assert i == i';
      assert x in RefsOf(c, key, prims[k]);
    }
  }

  /** The primaries followed by the added devices hold no name twice, and hold
      exactly the primary names and the referenced ROM-bearing devices. */
  lemma PrimariesThenAdded(c: seq<Machine>, key: string)
    ensures NoDup(PrimaryNames(c, key) + Additional(c, key))
    ensures forall x :: x in PrimaryNames(c, key) + Additional(c, key) <==>
              || NamedPrimary(c, key, x)
              || (!NamedPrimary(c, key, x) && ReferencedByPrimary(c, key, x) && LastRecordHasRoms(c, x))
  {
    var p := PrimaryNames(c, key);
    var a := Additional(c, key);
    var r := p + a;
    var disc := Discovery(c, key, p);
    forall i, j | 0 <= i < j < |r|
      ensures r[i] != r[j]
    {
      if j >= |p| && i < |p| {
        assert r[j] in a;
        KeepQualifyingMembers(c, p, disc, r[j]);
        assert r[i] in p;
      }
    }
    forall x
      ensures x in r <==>
                || NamedPrimary(c, key, x)
                || (!NamedPrimary(c, key, x) && ReferencedByPrimary(c, key, x) && LastRecordHasRoms(c, x))
    {
      PrimaryNamesMembers(c, key, x);
      ResolvesMeansLastHasRoms(c, x);
      DiscoveryMembers(c, key, x);
      KeepQualifyingMembers(c, p, disc, x);
    }
  }

  /** The classification is the primaries followed by the added devices, and
      no added device is a primary. */
  lemma PrimariesFirst(c: seq<Machine>, key: string)
    ensures Classification(c, key) == PrimaryNames(c, key) + Additional(c, key)
    ensures forall x :: x in PrimaryNames(c, key) ==> NamedPrimary(c, key, x)
    ensures forall x :: x in Additional(c, key) ==> !NamedPrimary(c, key, x)
  {
    var p := PrimaryNames(c, key);
    forall x | x in p
      ensures NamedPrimary(c, key, x)
    {
      PrimaryNamesMembers(c, key, x);
    }
    forall x | x in Additional(c, key)
      ensures !NamedPrimary(c, key, x)
    {
      PrimaryNamesMembers(c, key, x);
      assert x in KeepQualifying(c, p, Discovery(c, key, p));
      KeepQualifyingMembers(c, p, Discovery(c, key, p), x);
    }
  }

  /** Primaries appear in the order of their first primary record in the catalog. */
  lemma PrimaryOrder(c: seq<Machine>, key: string)
    ensures forall i, j :: 0 <= i < j < |PrimaryNames(c, key)| ==>
              Precedes(NamesOf(PrimaryRecords(c, key)), Classification(c, key)[i], Classification(c, key)[j])
  {
    DedupOrder(NamesOf(PrimaryRecords(c, key)));
  }

  /** Added devices appear in the order of their first occurrence in the walk
      over the primaries' device references. */
  lemma AddedOrder(c: seq<Machine>, key: string)
    ensures forall i, j :: |PrimaryNames(c, key)| <= i < j < |Classification(c, key)| ==>
              Precedes(Discovery(c, key, PrimaryNames(c, key)), Classification(c, key)[i], Classification(c, key)[j])
  {
    var p := PrimaryNames(c, key);
    var r := Classification(c, key);
    var disc := Discovery(c, key, p);
    var a := Additional(c, key);
    assert r == p + a;
    AddedInWalkOrder(c, p, disc);
    SuffixOrder(p, a, disc);
  }

  /** Order within the tail of a concatenation is order within the tail. */
  lemma SuffixOrder(p: seq<Name>, a: seq<Name>, walk: seq<Name>)
    requires forall i, j :: 0 <= i < j < |a| ==> Precedes(walk, a[i], a[j])
    ensures forall i, j :: |p| <= i < j < |p + a| ==> Precedes(walk, (p + a)[i], (p + a)[j])
  {
    forall i, j | |p| <= i < j < |p + a|
      ensures Precedes(walk, (p + a)[i], (p + a)[j])
    {
      assert (p + a)[i] == a[i - |p|] && (p + a)[j] == a[j - |p|];
    }
  }

  /** Deduplicating the kept references keeps the walk's order. */
  lemma AddedInWalkOrder(c: seq<Machine>, p: seq<Name>, walk: seq<Name>)
    ensures forall i, j :: 0 <= i < j < |Dedup(KeepQualifying(c, p, walk))| ==>
              Precedes(walk, Dedup(KeepQualifying(c, p, walk))[i], Dedup(KeepQualifying(c, p, walk))[j])
  {
    var kept := KeepQualifying(c, p, walk);
    var a := Dedup(kept);
    DedupOrder(kept);
    forall i, j | 0 <= i < j < |a|
      ensures Precedes(walk, a[i], a[j])
    {
      var x, y := a[i], a[j];
      assert Precedes(kept, x, y);
      assert y in kept;
      KeepQualifyingMembers(c, p, walk, y);
      KeepPrecedes(c, p, walk, x, y);
    }
  }

  /** Order between kept references is order in the walk. */
  lemma {:induction false} KeepPrecedes(c: seq<Machine>, p: seq<Name>, s: seq<Name>, x: Name, y: Name)
    requires Precedes(KeepQualifying(c, p, s), x, y)
    requires Qualifies(c, p, y)
    ensures Precedes(s, x, y)
    decreases |s|
  {
    var k := KeepQualifying(c, p, s);
    var i :| 0 <= i < |k| && k[i] == x && y !in k[..i];
    var s0 := s[..|s| - 1];
    var k0 := KeepQualifying(c, p, s0);
    if i < |k0| {
      assert k0[i] == x && k0[..i] == k[..i];
      KeepPrecedes(c, p, s0, x, y);
      var i0 :| 0 <= i0 < |s0| && s0[i0] == x && y !in s0[..i0];
      assert s[..i0] == s0[..i0];
    } else {
      assert x == s[|s| - 1];
      assert k0 == k[..i];
      KeepQualifyingMembers(c, p, s0, y);
      assert y !in s0;
      assert s[..|s| - 1] == s0;
    }
  }

  // ---------------------------------------------------------------------------
  // One hop: the device references of records that are not primary are never read.

  /** `c2` differs from `c` at most in the device references of records that are not primary. */
  ghost predicate DiffersOnlyInNonPrimaryRefs(c: seq<Machine>, c2: seq<Machine>, key: string) {
    && |c2| == |c|
    && forall i :: 0 <= i < |c| ==>
         c2[i] == c[i] || (!IsPrimary(c[i], key) && c2[i] == c[i].(deviceRefs := c2[i].deviceRefs))
  }

  lemma {:induction false} FramePrimaryRecords(c: seq<Machine>, c2: seq<Machine>, key: string)
    requires DiffersOnlyInNonPrimaryRefs(c, c2, key)
    ensures PrimaryRecords(c2, key) == PrimaryRecords(c, key)
    ensures forall n :: PrimaryRecord(c2, key, n) == PrimaryRecord(c, key, n)
  {
    if c != [] {
      var k := |c| - 1;
      assert DiffersOnlyInNonPrimaryRefs(c[..k], c2[..k], key);
      FramePrimaryRecords(c[..k], c2[..k], key);
    }
  }

  /** Device references play no part in resolving a name to a ROM-bearing record. */
  lemma FrameResolves(c: seq<Machine>, c2: seq<Machine>, key: string)
    requires DiffersOnlyInNonPrimaryRefs(c, c2, key)
    ensures forall n :: ResolvesWithRoms(c2, n) == ResolvesWithRoms(c, n)
  {
    assert forall i :: 0 <= i < |c| ==> c2[i].name == c[i].name && c2[i].roms == c[i].roms;
    forall n
      ensures ResolvesWithRoms(c2, n) == ResolvesWithRoms(c, n)
    {
      var k, k2 := LastIndex(c, n), LastIndex(c2, n);
      assert k == k2;
    }
  }

  lemma {:induction false} FrameDiscovery(c: seq<Machine>, c2: seq<Machine>, key: string, prims: seq<Name>)
    requires forall n :: PrimaryRecord(c2, key, n) == PrimaryRecord(c, key, n)
    ensures Discovery(c2, key, prims) == Discovery(c, key, prims)
  {
    if prims != [] {
      FrameDiscovery(c, c2, key, prims[..|prims| - 1]);
    }
  }

  lemma {:induction false} FrameKeep(c: seq<Machine>, c2: seq<Machine>, p: seq<Name>, s: seq<Name>)
    requires forall n :: ResolvesWithRoms(c2, n) == ResolvesWithRoms(c, n)
    ensures KeepQualifying(c2, p, s) == KeepQualifying(c, p, s)
  {
    if s != [] {
      FrameKeep(c, c2, p, s[..|s| - 1]);
    }
  }

  /** Only one hop is taken: changing the device references of any records
      that are not primary leaves the classification unchanged. */
  lemma OneHop(c: seq<Machine>, c2: seq<Machine>, key: string)
    requires DiffersOnlyInNonPrimaryRefs(c, c2, key)
    ensures Classification(c2, key) == Classification(c, key)
  {
    FramePrimaryRecords(c, c2, key);
    FrameResolves(c, c2, key);
    var p := PrimaryNames(c, key);
    assert PrimaryNames(c2, key) == p;
    FrameDiscovery(c, c2, key, p);
    FrameKeep(c, c2, p, Discovery(c, key, p));
  }

  /** A device reference that names no catalog machine is silently skipped:
      it never reaches the result. */
  lemma DanglingRefSkipped(c: seq<Machine>, key: string, d: Name)
    requires d !in Names(c)
    ensures d !in Classification(c, key)
  {
    forall i | 0 <= i < |c|
      ensures c[i].name != d
    {
      assert c[i] in c;
    }
  }
}
