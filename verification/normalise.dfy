/** The XML-to-JSON normaliser: one flat record per `machine` element, with
    defaults where an attribute or child is missing, and the rendering of a
    record back to an element. */
module Normaliser {
  import opened Common
  import opened Xml
  import opened Catalog

  function ToBiosSet(e: Element): BiosSet {
    BiosSet(Attr(e, "name"), Attr(e, "description"))
  }

  function ToRom(e: Element): Rom {
    Rom(Attr(e, "name"), Attr(e, "size"), Attr(e, "crc"), Attr(e, "sha1"), Attr(e, "region"), Attr(e, "offset"))
  }

  function ToChip(e: Element): Chip {
    Chip(Attr(e, "type"), Attr(e, "tag"), Attr(e, "name"), AttrOr(e, "clock", NoneText))
  }

  function ToFeature(e: Element): Feature {
    Feature(Attr(e, "type"), Attr(e, "status"))
  }

  function BiosSets(e: Element): seq<BiosSet> {
    var cs := FindAll(e, "biosset");
    seq(|cs|, i requires 0 <= i < |cs| => ToBiosSet(cs[i]))
  }

  function Roms(e: Element): seq<Rom> {
    var cs := FindAll(e, "rom");
    seq(|cs|, i requires 0 <= i < |cs| => ToRom(cs[i]))
  }

  function DeviceRefs(e: Element): seq<Name> {
    var cs := FindAll(e, "device_ref");
    seq(|cs|, i requires 0 <= i < |cs| => Attr(cs[i], "name"))
  }

  function Chips(e: Element): seq<Chip> {
    var cs := FindAll(e, "chip");
    seq(|cs|, i requires 0 <= i < |cs| => ToChip(cs[i]))
  }

  function Features(e: Element): seq<Feature> {
    var cs := FindAll(e, "feature");
    seq(|cs|, i requires 0 <= i < |cs| => ToFeature(cs[i]))
  }

  /** The record built for one `machine` element. */
  function ToMachine(e: Element): (m: Machine)
    // attributes with a default
    ensures "romof" in e.attrs ==> m.romof == e.attrs["romof"]
    ensures "romof" !in e.attrs ==> m.romof == "none"
    ensures "cloneof" in e.attrs ==> m.cloneof == e.attrs["cloneof"]
    ensures "cloneof" !in e.attrs ==> m.cloneof == "none"
    ensures "ismechanical" in e.attrs ==> m.ismechanical == e.attrs["ismechanical"]
    ensures "ismechanical" !in e.attrs ==> m.ismechanical == "no"
    ensures "sampleof" in e.attrs ==> m.sampleof == e.attrs["sampleof"]
    ensures "sampleof" !in e.attrs ==> m.sampleof == "none"
    // attributes without a default
    ensures m.name.Some? <==> "name" in e.attrs
    ensures m.name.Some? ==> m.name.value == e.attrs["name"]
    ensures m.sourcefile.Some? <==> "sourcefile" in e.attrs
    ensures m.sourcefile.Some? ==> m.sourcefile.value == e.attrs["sourcefile"]
  {
    Machine(
      name := Attr(e, "name"),
      sourcefile := Attr(e, "sourcefile"),
      romof := AttrOr(e, "romof", NoneText),
      cloneof := AttrOr(e, "cloneof", NoneText),
      ismechanical := AttrOr(e, "ismechanical", "no"),
      sampleof := AttrOr(e, "sampleof", NoneText),
      description := FindTextOr(e, "description", NoneText),
      year := FindTextOr(e, "year", NoneText),
      manufacturer := FindTextOr(e, "manufacturer", NoneText),
      biossets := BiosSets(e),
      roms := Roms(e),
      deviceRefs := DeviceRefs(e),
      chips := Chips(e),
      driver := Driver(FindPathText(e, "driver", "status"),
                       FindPathText(e, "driver", "emulation"),
                       FindPathText(e, "driver", "savestate")),
      features := Features(e))
  }

  /** A missing single-valued child gives the text "none". */
  lemma TextDefaults(e: Element)
    ensures (forall i :: 0 <= i < |e.children| ==> e.children[i].tag != "description") ==> ToMachine(e).description == "none"
    ensures (forall i :: 0 <= i < |e.children| ==> e.children[i].tag != "year") ==> ToMachine(e).year == "none"
    ensures (forall i :: 0 <= i < |e.children| ==> e.children[i].tag != "manufacturer") ==> ToMachine(e).manufacturer == "none"
  {
  }

  /** Each repeated child kind gives one list entry per child element. */
  lemma ListCounts(e: Element)
    ensures |ToMachine(e).biossets| == |FindAll(e, "biosset")|
    ensures |ToMachine(e).roms| == |FindAll(e, "rom")|
    ensures |ToMachine(e).deviceRefs| == |FindAll(e, "device_ref")|
    ensures |ToMachine(e).chips| == |FindAll(e, "chip")|
    ensures |ToMachine(e).features| == |FindAll(e, "feature")|
  {
  }

  /** Device references are the `name` attributes of the `device_ref` children in
      document order, and a chip's clock defaults to "none". */
  lemma RefsAndClocks(e: Element)
    ensures forall i :: 0 <= i < |FindAll(e, "device_ref")| ==> ToMachine(e).deviceRefs[i] == Attr(FindAll(e, "device_ref")[i], "name")
    ensures forall i :: 0 <= i < |FindAll(e, "chip")| ==>
              && ("clock" in FindAll(e, "chip")[i].attrs ==> ToMachine(e).chips[i].clock == FindAll(e, "chip")[i].attrs["clock"])
              && ("clock" !in FindAll(e, "chip")[i].attrs ==> ToMachine(e).chips[i].clock == "none")
  {
  }

  /** The record list for a document root: `root.findall("machine")`, converted one by one. */
  function Normalise(root: Element): (ms: seq<Machine>)
    ensures |ms| == |FindAll(root, "machine")|
    ensures forall i :: 0 <= i < |ms| ==> ms[i] == ToMachine(FindAll(root, "machine")[i])
  {
    var es := FindAll(root, "machine");
    seq(|es|, i requires 0 <= i < |es| => ToMachine(es[i]))
  }

  // ---------------------------------------------------------------------------
  // Rendering a record back to an element. Normalising the rendering gives the
  // record back: no field is lost and every default reads back as itself.

  /** `a` with `k` set to the value of `v`, or unchanged when `v` is absent. */
  function Put(a: map<string, string>, k: string, v: Option<string>): map<string, string> {
    if v.Some? then a[k := v.value] else a
  }

  /** A childless element holding only text. */
  function TextElement(tag: string, text: string): Element {
    Element(tag, map[], Some(text), [])
  }

  /** A one-element block when `v` is present, empty otherwise. */
  function OptionalText(tag: string, v: Option<string>): seq<Element> {
    if v.Some? then [TextElement(tag, v.value)] else []
  }

  function FromBiosSet(b: BiosSet): Element {
    Element("biosset", Put(Put(map[], "name", b.name), "description", b.description), None, [])
  }

  function FromRom(r: Rom): Element {
    var a := Put(Put(Put(map[], "name", r.name), "size", r.size), "crc", r.crc);
    Element("rom", Put(Put(Put(a, "sha1", r.sha1), "region", r.region), "offset", r.offset), None, [])
  }

  function FromDeviceRef(n: Name): Element {
    Element("device_ref", Put(map[], "name", n), None, [])
  }

  function FromChip(c: Chip): Element {
    Element("chip", Put(Put(Put(map["clock" := c.clock], "type", c.kind), "tag", c.tag), "name", c.name), None, [])
  }

  function FromFeature(f: Feature): Element {
    Element("feature", Put(Put(map[], "type", f.kind), "status", f.status), None, [])
  }

  function FromDriver(d: Driver): Element {
    Element("driver", map[], None,
            OptionalText("status", d.status) + OptionalText("emulation", d.emulation)
            + OptionalText("savestate", d.savestate))
  }

  /** The concatenation of a sequence of blocks. */
  function Concat(bs: seq<seq<Element>>): seq<Element> {
    if bs == [] then [] else bs[0] + Concat(bs[1..])
  }

  /** Children grouped in blocks, one tag per block and a different tag for each
      block: selecting a block's tag gives exactly that block. */
  lemma {:induction false} WithTagBlocks(bs: seq<seq<Element>>, tags: seq<string>, k: nat)
    requires |bs| == |tags| && k < |bs|
    requires forall i, j :: 0 <= i < |bs| && 0 <= j < |bs[i]| ==> bs[i][j].tag == tags[i]
    requires forall i :: 0 <= i < |tags| && i != k ==> tags[i] != tags[k]
    ensures WithTag(Concat(bs), tags[k]) == bs[k]
    decreases |bs|
  {
    WithTagAppend(bs[0], Concat(bs[1..]), tags[k]);
    if k == 0 {
      WithTagAll(bs[0], tags[k]);
      WithTagBlocksAbsent(bs[1..], tags[1..], tags[k]);
    } else {
      WithTagNone(bs[0], tags[k]);
      WithTagBlocks(bs[1..], tags[1..], k - 1);
    }
  }

  /** Selecting a tag no block carries gives nothing. */
  lemma {:induction false} WithTagBlocksAbsent(bs: seq<seq<Element>>, tags: seq<string>, t: string)
    requires |bs| == |tags|
    requires forall i, j :: 0 <= i < |bs| && 0 <= j < |bs[i]| ==> bs[i][j].tag == tags[i]
    requires forall i :: 0 <= i < |tags| ==> tags[i] != t
    ensures WithTag(Concat(bs), t) == []
    decreases |bs|
  {
    if bs != [] {
      WithTagAppend(bs[0], Concat(bs[1..]), t);
      WithTagNone(bs[0], t);
      WithTagBlocksAbsent(bs[1..], tags[1..], t);
    }
  }

  /** The tags of the blocks of a rendered machine, in the order they are emitted. */
  const BlockTags: seq<string> :=
    ["description", "year", "manufacturer", "biosset", "rom", "device_ref", "chip", "driver", "feature"]

  /** The children of a rendered machine, block by block. */
  function MachineBlocks(m: Machine): (bs: seq<seq<Element>>)
    ensures |bs| == |BlockTags|
    ensures forall i, j :: 0 <= i < |bs| && 0 <= j < |bs[i]| ==> bs[i][j].tag == BlockTags[i]
  {
    [[TextElement("description", m.description)],
     [TextElement("year", m.year)],
     [TextElement("manufacturer", m.manufacturer)],
     seq(|m.biossets|, i requires 0 <= i < |m.biossets| => FromBiosSet(m.biossets[i])),
     seq(|m.roms|, i requires 0 <= i < |m.roms| => FromRom(m.roms[i])),
     seq(|m.deviceRefs|, i requires 0 <= i < |m.deviceRefs| => FromDeviceRef(m.deviceRefs[i])),
     seq(|m.chips|, i requires 0 <= i < |m.chips| => FromChip(m.chips[i])),
     [FromDriver(m.driver)],
     seq(|m.features|, i requires 0 <= i < |m.features| => FromFeature(m.features[i]))]
  }

  /** A `machine` element that carries every field of `m`. */
  function FromMachine(m: Machine): Element {
    var a := map["romof" := m.romof, "cloneof" := m.cloneof, "ismechanical" := m.ismechanical, "sampleof" := m.sampleof];
    Element("machine", Put(Put(a, "name", m.name), "sourcefile", m.sourcefile), None, Concat(MachineBlocks(m)))
  }

  /** Selecting one of the block tags from a rendered machine gives that block. */
  lemma MachineBlock(m: Machine, k: nat)
    requires k < |BlockTags|
    ensures FindAll(FromMachine(m), BlockTags[k]) == MachineBlocks(m)[k]
  {
    WithTagBlocks(MachineBlocks(m), BlockTags, k);
  }

  /** The display texts read back from a rendered machine. */
  lemma DisplayTextRoundTrip(m: Machine)
    ensures FindTextOr(FromMachine(m), "description", NoneText) == m.description
    ensures FindTextOr(FromMachine(m), "year", NoneText) == m.year
    ensures FindTextOr(FromMachine(m), "manufacturer", NoneText) == m.manufacturer
  {
    MachineBlock(m, 0);
    MachineBlock(m, 1);
    MachineBlock(m, 2);
  }

  /** A path through a parent that occurs once reads the parent's first matching child. */
  lemma PathThroughSingleParent(e: Element, parent: string, p: Element, child: string)
    requires FindAll(e, parent) == [p]
    ensures FindPathText(e, parent, child) == FindText(p, child)
  {
    assert [p][..0] == [];
    assert ChildrenWithTag([p], child) == FindAll(p, child);
  }

  /** The children of a rendered driver, block by block. */
  function DriverBlocks(d: Driver): (bs: seq<seq<Element>>)
    ensures |bs| == 3
    ensures forall i, j :: 0 <= i < 3 && 0 <= j < |bs[i]| ==> bs[i][j].tag == ["status", "emulation", "savestate"][i]
  {
    [OptionalText("status", d.status), OptionalText("emulation", d.emulation), OptionalText("savestate", d.savestate)]
  }

  lemma DriverChildren(d: Driver)
    ensures FromDriver(d).children == Concat(DriverBlocks(d))
  {
    var bs := DriverBlocks(d);
    assert bs[1..][1..][1..] == [];
    assert Concat(bs[1..][1..]) == bs[2];
    assert Concat(bs[1..]) == bs[1] + bs[2];
  }

  /** The driver sub-fields read back from a rendered driver. */
  lemma DriverFields(d: Driver)
    ensures FindText(FromDriver(d), "status") == d.status
    ensures FindText(FromDriver(d), "emulation") == d.emulation
    ensures FindText(FromDriver(d), "savestate") == d.savestate
  {
    DriverField(d, 0);
    DriverField(d, 1);
    DriverField(d, 2);
  }

  /** One driver sub-field read back. */
  lemma DriverField(d: Driver, k: nat)
    requires k < 3
    ensures FindText(FromDriver(d), ["status", "emulation", "savestate"][k]) == [d.status, d.emulation, d.savestate][k]
  {
    DriverChildren(d);
    var tags := ["status", "emulation", "savestate"];
    WithTagBlocks(DriverBlocks(d), tags, k);
  }

  /** The attributes read back from a rendered machine. */
  lemma AttrsRoundTrip(m: Machine)
    ensures Attr(FromMachine(m), "name") == m.name
    ensures Attr(FromMachine(m), "sourcefile") == m.sourcefile
    ensures AttrOr(FromMachine(m), "romof", NoneText) == m.romof
    ensures AttrOr(FromMachine(m), "cloneof", NoneText) == m.cloneof
    ensures AttrOr(FromMachine(m), "ismechanical", "no") == m.ismechanical
    ensures AttrOr(FromMachine(m), "sampleof", NoneText) == m.sampleof
  {
  }

  lemma BiosSetRoundTrip(b: BiosSet)
    ensures ToBiosSet(FromBiosSet(b)) == b
  {
  }

  lemma RomRoundTrip(r: Rom)
    ensures ToRom(FromRom(r)) == r
  {
  }

  lemma ChipRoundTrip(c: Chip)
    ensures ToChip(FromChip(c)) == c
  {
  }

  lemma FeatureRoundTrip(f: Feature)
    ensures ToFeature(FromFeature(f)) == f
  {
  }

  /** The repeated-child lists read back from a rendered machine. */
  lemma ListsRoundTrip(m: Machine)
    ensures BiosSets(FromMachine(m)) == m.biossets
    ensures Roms(FromMachine(m)) == m.roms
    ensures DeviceRefs(FromMachine(m)) == m.deviceRefs
    ensures Chips(FromMachine(m)) == m.chips
    ensures Features(FromMachine(m)) == m.features
  {
    BiosSetListRoundTrip(m);
    RomListRoundTrip(m);
    MachineBlock(m, 5);
    ChipListRoundTrip(m);
    FeatureListRoundTrip(m);
  }

  lemma BiosSetListRoundTrip(m: Machine)
    ensures BiosSets(FromMachine(m)) == m.biossets
  {
    MachineBlock(m, 3);
    forall i | 0 <= i < |m.biossets| ensures BiosSets(FromMachine(m))[i] == m.biossets[i] {
      BiosSetRoundTrip(m.biossets[i]);
    }
  }

  lemma RomListRoundTrip(m: Machine)
    ensures Roms(FromMachine(m)) == m.roms
  {
    MachineBlock(m, 4);
    forall i | 0 <= i < |m.roms| ensures Roms(FromMachine(m))[i] == m.roms[i] {
      RomRoundTrip(m.roms[i]);
    }
  }

  lemma ChipListRoundTrip(m: Machine)
    ensures Chips(FromMachine(m)) == m.chips
  {
    MachineBlock(m, 6);
    forall i | 0 <= i < |m.chips| ensures Chips(FromMachine(m))[i] == m.chips[i] {
      ChipRoundTrip(m.chips[i]);
    }
  }

  lemma FeatureListRoundTrip(m: Machine)
    ensures Features(FromMachine(m)) == m.features
  {
    MachineBlock(m, 8);
    forall i | 0 <= i < |m.features| ensures Features(FromMachine(m))[i] == m.features[i] {
      FeatureRoundTrip(m.features[i]);
    }
  }

  /** Normalising a rendered machine gives the machine back. */
  lemma {:induction false} MachineRoundTrip(m: Machine)
    ensures ToMachine(FromMachine(m)) == m
  {
    var e := FromMachine(m);
    DisplayTextRoundTrip(m);
    MachineBlock(m, 7);
    PathThroughSingleParent(e, "driver", FromDriver(m.driver), "status");
    PathThroughSingleParent(e, "driver", FromDriver(m.driver), "emulation");
    PathThroughSingleParent(e, "driver", FromDriver(m.driver), "savestate");
    DriverFields(m.driver);
    ListsRoundTrip(m);
    AttrsRoundTrip(m);
  }

  /** A document whose root holds one rendered `machine` element per record, in order. */
  function Document(ms: seq<Machine>): Element {
    Element("mame", map[], None, seq(|ms|, i requires 0 <= i < |ms| => FromMachine(ms[i])))
  }

  /** Normalising the rendered document gives back every record, in order, with
      repeated names kept: conversion neither drops, reorders nor merges machines. */
  lemma DocumentRoundTrip(ms: seq<Machine>)
    ensures Normalise(Document(ms)) == ms
  {
    var root := Document(ms);
    WithTagAll(root.children, "machine");
    forall i | 0 <= i < |ms|
      ensures Normalise(root)[i] == ms[i]
    {
      MachineRoundTrip(ms[i]);
    }
  }
}
