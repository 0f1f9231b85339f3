/** The curated-list validator: every enabled entry of the
    `AllKillerNoFillerRoms` section must name a catalog machine, and every
    device that such a machine references and that carries ROMs must itself be
    a key of the section. It only reports; nothing is changed. */
module AknfCheck {
  import opened Common
  import opened Seqs
  import opened Text
  import opened Catalog
  import opened Ini

  /** `value.lower() == "true"`: the validator's notion of an enabled entry. */
  predicate Enabled(v: string) {
    LowerAscii(v) == "true"
  }

  /** The record a scan of the catalog stops at: the FIRST one with the name. */
  function FirstNamed(c: seq<Machine>, n: Name): (r: Option<Machine>)
    ensures r.None? <==> forall i :: 0 <= i < |c| ==> c[i].name != n
    ensures r.Some? ==> r.value in c && r.value.name == n
  {
    if c == [] then None
    else if c[0].name == n then Some(c[0])
    else FirstNamed(c[1..], n)
  }

  /** The record at `k` is the first with its name. */
  lemma {:induction false} FirstNamedAt(c: seq<Machine>, k: nat)
    requires k < |c|
    requires forall j :: 0 <= j < k ==> c[j].name != c[k].name
    ensures FirstNamed(c, c[k].name) == Some(c[k])
  {
    if k > 0 {
      assert c[1..][k - 1] == c[k];
      forall j | 0 <= j < k - 1
        ensures c[1..][j].name != c[k].name
      {
        assert c[1..][j] == c[j + 1];
      }
      FirstNamedAt(c[1..], k - 1);
    }
  }

  /** Some record with the name carries ROMs: the inner scan over the catalog
      that adds the reference and stops at the first such record. */
  predicate AnyWithRoms(c: seq<Machine>, d: Name) {
    exists j :: 0 <= j < |c| && c[j].name == d && HasRoms(c[j])
  }

  /** The references of the machine an enabled key resolves to, if it resolves. */
  function RefsOfKey(c: seq<Machine>, k: string): seq<Name> {
    match FirstNamed(c, Some(k))
    case None => []
    case Some(m) => m.deviceRefs
  }

  /** Entry `e` collects reference `d`: the entry is enabled, its key resolves
      to a machine referencing `d`, and some record named `d` carries ROMs. */
  predicate Collects(c: seq<Machine>, e: (string, string), d: Name) {
    Enabled(e.1) && d in RefsOfKey(c, e.0) && AnyWithRoms(c, d)
  }

  /** What one entry adds to `reference_roms`. */
  function Contribution(c: seq<Machine>, e: (string, string)): (r: set<Name>)
    ensures forall d :: d in r <==> Collects(c, e, d)
  {
    if Enabled(e.1) then (set d | d in RefsOfKey(c, e.0) && AnyWithRoms(c, d)) else {}
  }

  /** The set `reference_roms` after the first pass over the section: a
      reference is collected exactly when some entry collects it. */
  function Required(s: Section, c: seq<Machine>): (r: set<Name>)
    ensures forall d :: d in r <==> exists i :: 0 <= i < |s| && Collects(c, s[i], d)
  {
    if s == [] then {}
    else
      var front := s[..|s| - 1];
      var prev := Required(front, c);
      var r := prev + Contribution(c, s[|s| - 1]);
      CollectedStep(s, front, c, prev, r);
      r
  }

  /** The enabled keys the first pass reports as not found, in section order:
      a key is reported exactly when it has an enabled entry and no catalog
      record carries its name. */
  function NotFound(s: Section, c: seq<Machine>): (r: seq<string>)
    ensures forall k :: k in r <==>
              (exists i :: 0 <= i < |s| && s[i].0 == k && Enabled(s[i].1)) && Some(k) !in Names(c)
    ensures Subsequence(r, Keys(s))
  {
    if s == [] then []
    else
      var front, e := s[..|s| - 1], s[|s| - 1];
      var prev := NotFound(front, c);
      var reported := Enabled(e.1) && FirstNamed(c, Some(e.0)).None?;
      var r := prev + (if reported then [e.0] else []);
      NotFoundStep(s, front, c, prev, r);
      assert Keys(s) == Keys(front) + [e.0];
      SubsequenceSnoc(prev, Keys(front), e.0, reported);
      r
  }

  /** The section's keys, as names comparable with device references. */
  function KeyNames(s: Section): set<Name> {
    set i | 0 <= i < |s| :: Some(s[i].0)
  }

  /** The second pass's reports: collected references that no key of the
      section names, whatever that key's value. The source visits a set, so no
      order is modelled. Listing a reference as a key, enabled or disabled,
      silences its report. */
  function MissingRefs(s: Section, c: seq<Machine>): (r: set<Name>)
    ensures forall d :: d in r <==>
              (exists i :: 0 <= i < |s| && Collects(c, s[i], d)) && forall i :: 0 <= i < |s| ==> Some(s[i].0) != d
  {
    Required(s, c) - KeyNames(s)
  }

  /** The two kinds of report of one validation. */
  datatype Findings = Findings(notFound: seq<string>, missingRefs: set<Name>)

  /** A run either fails on the absent section (a KeyError) or reports. */
  datatype Validation = SectionMissing | Checked(findings: Findings)

  // Reference characterisations

  /** One step of the first pass's reports: the last entry is reported
      exactly when it is enabled and no catalog record carries its name. */
  lemma NotFoundStep(s: Section, front: Section, c: seq<Machine>, prev: seq<string>, r: seq<string>)
    requires s != [] && front == s[..|s| - 1]
    requires forall k :: k in prev <==>
               (exists i :: 0 <= i < |front| && front[i].0 == k && Enabled(front[i].1)) && Some(k) !in Names(c)
    requires var e := s[|s| - 1];
             r == prev + (if Enabled(e.1) && FirstNamed(c, Some(e.0)).None? then [e.0] else [])
    ensures forall k :: k in r <==> (exists i :: 0 <= i < |s| && s[i].0 == k && Enabled(s[i].1)) && Some(k) !in Names(c)
  {
    var n := |s| - 1;
    assert forall i :: 0 <= i < n ==> front[i] == s[i];
    forall k
      ensures k in r <==> (exists i :: 0 <= i < |s| && s[i].0 == k && Enabled(s[i].1)) && Some(k) !in Names(c)
    {
      if exists i :: 0 <= i < |s| && s[i].0 == k && Enabled(s[i].1) {
        var i :| 0 <= i < |s| && s[i].0 == k && Enabled(s[i].1);
        if i < n {
          assert front[i].0 == k && Enabled(front[i].1);
        }
      }
      if Some(k) in Names(c) {
        var m :| m in c && m.name == Some(k);
      }
    }
  }

  /** Distinct keys (the INI parser rejects repeated ones) are each reported at most once. */
  lemma {:induction false} NotFoundOnce(s: Section, c: seq<Machine>)
    requires NoDup(Keys(s))
    ensures NoDup(NotFound(s, c))
  {
    if s != [] {
      var n := |s| - 1;
      var front := s[..n];
      assert Keys(front) == Keys(s)[..n];
      NotFoundOnce(front, c);
      if Enabled(s[n].1) && FirstNamed(c, Some(s[n].0)).None? {
        forall i | 0 <= i < |front|
          ensures front[i].0 != s[n].0
        {
          assert Keys(s)[i] == front[i].0;
        }
      }
    }
  }

  /** One step of the first pass: the last entry adds what it collects. */
  lemma CollectedStep(s: Section, front: Section, c: seq<Machine>, prev: set<Name>, r: set<Name>)
    requires s != [] && front == s[..|s| - 1]
    requires forall d :: d in prev <==> exists i :: 0 <= i < |front| && Collects(c, front[i], d)
    requires r == prev + Contribution(c, s[|s| - 1])
    ensures forall d :: d in r <==> exists i :: 0 <= i < |s| && Collects(c, s[i], d)
  {
    var n := |s| - 1;
    assert forall i :: 0 <= i < n ==> front[i] == s[i];
    forall d
      ensures d in r <==> exists i :: 0 <= i < |s| && Collects(c, s[i], d)
    {
      var inFront := exists i :: 0 <= i < n && Collects(c, front[i], d);
      var inAll := exists i :: 0 <= i < |s| && Collects(c, s[i], d);
      assert inFront ==> inAll;
      assert Collects(c, s[n], d) ==> inAll;
      assert inAll ==> inFront || Collects(c, s[n], d);
    }
  }

  /** The validator is stricter than the extractor: whatever it counts as
      enabled the extractor reads as true, but not the other way round. */
  lemma ValidatorStricterThanExtractor()
    ensures forall v :: Enabled(v) ==> ParseBool(v) == Some(true)
    ensures ParseBool("yes") == Some(true) && !Enabled("yes")
  {
    assert LowerAscii("yes") == "yes";
  }

  /** The validator's ROM test is weaker than the classifier's: a reference
      resolving (by its last record) to a machine with ROMs has some record with
      ROMs, but a name whose earlier record alone has ROMs is demanded by the
      validator and not resolved by the classifier. */
  lemma ResolvingIsStricter(c: seq<Machine>, d: Name, m: Machine, bare: Machine)
    requires m.name == d && HasRoms(m) && bare.name == d && !HasRoms(bare)
    ensures ResolvesWithRoms(c, d) ==> AnyWithRoms(c, d)
    ensures AnyWithRoms([m, bare], d) && !ResolvesWithRoms([m, bare], d)
  {
    assert [m, bare][0] == m;
    assert Lookup([m, bare], d) == Some(bare);
  }

  // Examples: a ghost ROM entry, a shared device

  /** An enabled entry no record is named after is reported exactly once. */
  lemma GhostRomExample(c: seq<Machine>)
    requires Some("ghost_rom") !in Names(c)
    ensures NotFound([("ghost_rom", "true")], c) == ["ghost_rom"]
    ensures MissingRefs([("ghost_rom", "true")], c) == {}
  {
    var s := [("ghost_rom", "true")];
    assert LowerAscii("true") == "true";
    assert s[..0] == [];
    assert FirstNamed(c, Some("ghost_rom")).None? by {
      forall i | 0 <= i < |c| ensures c[i].name != Some("ghost_rom") {
        assert c[i] in c;
      }
    }
    assert RefsOfKey(c, "ghost_rom") == [];
    assert Contribution(c, s[0]) == {};
    assert Required(s, c) == {};
  }

  /** An enabled machine referencing a ROM-bearing device: the device is
      reported missing until it is listed, and a disabled listing is enough. */
  lemma SharedDeviceExample(rom: Rom)
    ensures var c := [Sketch("A", None, NoneText, [Some("shared_dev")], []), Sketch("shared_dev", None, NoneText, [], [rom])];
            MissingRefs([("A", "true")], c) == {Some("shared_dev")}
            && MissingRefs([("A", "true"), ("shared_dev", "false")], c) == {}
  {
    var c := [Sketch("A", None, NoneText, [Some("shared_dev")], []), Sketch("shared_dev", None, NoneText, [], [rom])];
    assert LowerAscii("true") == "true";
    assert LowerAscii("false") == "false";
    assert FirstNamed(c, Some("A")) == Some(c[0]);
    assert AnyWithRoms(c, Some("shared_dev")) by {
      assert c[1].name == Some("shared_dev") && HasRoms(c[1]);
    }
    var s1 := [("A", "true")];
    assert s1[..0] == [];
    assert Required(s1, c) == {Some("shared_dev")};
    assert KeyNames(s1) == {Some("A")};
    var s2 := [("A", "true"), ("shared_dev", "false")];
    assert s2[..1] == s1;
    assert Required(s2, c) == {Some("shared_dev")};
    assert Some("shared_dev") in KeyNames(s2) by {
      assert Some(s2[1].0) == Some("shared_dev");
    }
  }

  // The nested loops of the source

  /** The scan `for machine in machines: if machine["name"] == rom: ... break`. */
  method FindFirst(catalog: seq<Machine>, n: Name) returns (found: Option<Machine>)
    ensures found == FirstNamed(catalog, n)
  {
    var k := 0;
    while k < |catalog|
      invariant k <= |catalog|
      invariant forall j :: 0 <= j < k ==> catalog[j].name != n
    {
      if catalog[k].name == n {
        FirstNamedAt(catalog, k);
        return Some(catalog[k]);
      }
      k := k + 1;
    }
    return None;
  }

  /** The inner scan for one reference: does some record of that name carry ROMs? */
  method HasRomBearer(catalog: seq<Machine>, d: Name) returns (b: bool)
    ensures b == AnyWithRoms(catalog, d)
  {
    var k := 0;
    while k < |catalog|
      invariant k <= |catalog|
      invariant forall j :: 0 <= j < k ==> !(catalog[j].name == d && HasRoms(catalog[j]))
    {
      if catalog[k].name == d && catalog[k].roms != [] {
        return true;
      }
      k := k + 1;
    }
    return false;
  }

  /** `for device_ref in device_refs: ... reference_roms.add(device_ref)`. */
  method CollectRefs(catalog: seq<Machine>, refs: seq<Name>, acc: set<Name>) returns (out: set<Name>)
    ensures out == acc + set d | d in refs && AnyWithRoms(catalog, d)
  {
    out := acc;
    var k := 0;
    while k < |refs|
      invariant k <= |refs|
      invariant out == acc + set d | d in refs[..k] && AnyWithRoms(catalog, d)
    {
      var b := HasRomBearer(catalog, refs[k]);
      if b {
        out := out + {refs[k]};
      }
      assert refs[..k + 1] == refs[..k] + [refs[k]];
      k := k + 1;
    }
    assert refs[..k] == refs;
  }

  /** The first pass: for every enabled entry, report it when no record has its
      name, and otherwise collect the ROM-bearing references of the first record
      that has. */
  method ScanEntries(section: Section, catalog: seq<Machine>) returns (notFound: seq<string>, refs: set<Name>)
    ensures notFound == NotFound(section, catalog)
    ensures refs == Required(section, catalog)
  {
    notFound, refs := [], {};
    var i := 0;
    while i < |section|
      invariant i <= |section|
      invariant notFound == NotFound(section[..i], catalog)
      invariant refs == Required(section[..i], catalog)
    {
      notFound, refs := ScanEntry(section, catalog, i, notFound, refs);
      i := i + 1;
    }
    assert section[..i] == section;
  }

  /** One entry of the first pass: a disabled entry changes nothing; an enabled
      one is reported, or adds the ROM-bearing references of its machine. */
  method ScanEntry(section: Section, catalog: seq<Machine>, i: nat, notFound: seq<string>, refs: set<Name>)
    returns (notFound': seq<string>, refs': set<Name>)
    requires i < |section|
    requires notFound == NotFound(section[..i], catalog)
    requires refs == Required(section[..i], catalog)
    ensures notFound' == NotFound(section[..i + 1], catalog)
    ensures refs' == Required(section[..i + 1], catalog)
  {
    var (rom, value) := section[i];
    assert section[..i + 1][..i] == section[..i];
    notFound', refs' := notFound, refs;
    if LowerAscii(value) == "true" {
      var found := FindFirst(catalog, Some(rom));
      if found.None? {
        notFound' := notFound + [rom];
      } else {
        refs' := CollectRefs(catalog, found.value.deviceRefs, refs);
      }
    }
  }

  /** The second pass: every collected reference that no key of the section names. */
  method ReportMissing(section: Section, required: set<Name>) returns (missing: set<Name>)
    ensures missing == required - KeyNames(section)
  {
    missing := {};
    var rest := required;
    while rest != {}
      invariant rest <= required
      invariant missing == (required - rest) - KeyNames(section)
      decreases rest
    {
      rest, missing := ReportOne(section, required, rest, missing);
    }
  }

  /** One pass of that loop, on some reference not yet visited. */
  method ReportOne(section: Section, required: set<Name>, rest: set<Name>, missing: set<Name>)
    returns (rest': set<Name>, missing': set<Name>)
    requires rest != {} && rest <= required
    requires missing == (required - rest) - KeyNames(section)
    ensures rest' < rest
    ensures missing' == (required - rest') - KeyNames(section)
  {
    var d :| d in rest;
    var found := IsKey(section, d);
    missing' := if found then missing else missing + {d};
    assert required - (rest - {d}) == (required - rest) + {d};
    rest' := rest - {d};
  }

  /** The scan `for rom, value in aknfroms.items(): if reference_rom == rom: ... break`. */
  method IsKey(section: Section, d: Name) returns (found: bool)
    ensures found <==> d in KeyNames(section)
  {
    var j := 0;
    while j < |section|
      invariant j <= |section|
      invariant forall k :: 0 <= k < j ==> Some(section[k].0) != d
    {
      if Some(section[j].0) == d {
        return true;
      }
      j := j + 1;
    }
    return false;
  }

  /** `check_aknf_ini_file`: both passes over a configuration and a catalog. */
  method CheckAknfIniFile(cfg: Config, catalog: seq<Machine>) returns (r: Validation)
    ensures r == SectionMissing <==> AknfSectionName !in cfg
    ensures AknfSectionName in cfg ==>
              r == Checked(Findings(NotFound(cfg[AknfSectionName], catalog), MissingRefs(cfg[AknfSectionName], catalog)))
  {
    if AknfSectionName !in cfg {
      return SectionMissing;
    }
    var section := cfg[AknfSectionName];
    var notFound, refs := ScanEntries(section, catalog);
    var missing := ReportMissing(section, refs);
    return Checked(Findings(notFound, missing));
  }
}
