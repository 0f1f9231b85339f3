/** The normalised machine record (one entry of the JSON catalog) and the
    by-name lookup that the classifier performs on the catalog. */
module Catalog {
  import opened Common

  /** A machine or device name. Neither a machine's `name` attribute nor a
      `device_ref`'s has a default, so an absent one is `None`. */
  type Name = Option<string>

  datatype BiosSet = BiosSet(name: Option<string>, description: Option<string>)

  datatype Rom = Rom(name: Option<string>, size: Option<string>, crc: Option<string>,
                     sha1: Option<string>, region: Option<string>, offset: Option<string>)

  /** A chip; `clock` is the only chip attribute with a default ("none"). */
  datatype Chip = Chip(kind: Option<string>, tag: Option<string>, name: Option<string>, clock: string)

  datatype Driver = Driver(status: Option<string>, emulation: Option<string>, savestate: Option<string>)

  datatype Feature = Feature(kind: Option<string>, status: Option<string>)

  /** One catalog record. The string fields always carry a value (their
      default when the document omits them); the others are
      `None` when absent. */
  datatype Machine = Machine(
    name: Name,
    sourcefile: Option<string>,
    romof: string,
    cloneof: string,
    ismechanical: string,
    sampleof: string,
    description: string,
    year: string,
    manufacturer: string,
    biossets: seq<BiosSet>,
    roms: seq<Rom>,
    deviceRefs: seq<Name>,
    chips: seq<Chip>,
    driver: Driver,
    features: seq<Feature>)

  /** A record with the given name, source file, clone marker, device references
      and ROMs, every other field at its default. */
  function Sketch(name: string, sourcefile: Option<string>, cloneof: string, refs: seq<Name>, roms: seq<Rom>): Machine {
    Machine(Some(name), sourcefile, "none", cloneof, "no", "none", "none", "none", "none",
            [], roms, refs, [], Driver(None, None, None), [])
  }

  /** The sentinel for "no relation" in `romof`, `cloneof`, `sampleof` and for absent display text. */
  const NoneText := "none"

  /** A parent machine: one that is not a clone of another. */
  predicate IsParent(m: Machine) {
    m.cloneof == NoneText
  }

  /** The machine has its own ROM payload. */
  predicate HasRoms(m: Machine) {
    m.roms != []
  }

  /** Every name the catalog defines. */
  function Names(c: seq<Machine>): set<Name> {
    set m | m in c :: m.name
  }

  /** The position of the last record named `n`, or -1 when there is none. */
  function LastIndex(c: seq<Machine>, n: Name): (k: int)
    ensures -1 <= k < |c|
    ensures k == -1 <==> forall i :: 0 <= i < |c| ==> c[i].name != n
    ensures 0 <= k ==> c[k].name == n && forall j :: k < j < |c| ==> c[j].name != n
  {
    if c == [] then -1
    else if c[|c| - 1].name == n then |c| - 1
    else LastIndex(c[..|c| - 1], n)
  }

  /** The value of `{m['name']: m for m in catalog}` at `n`: when names repeat,
      the LAST record with that name wins. */
  function Lookup(c: seq<Machine>, n: Name): (r: Option<Machine>)
    ensures r.None? <==> forall i :: 0 <= i < |c| ==> c[i].name != n
    ensures r.Some? ==> exists i :: 0 <= i < |c| && c[i] == r.value && c[i].name == n
                                    && forall j :: i < j < |c| ==> c[j].name != n
  {
    var k := LastIndex(c, n);
    if k < 0 then None else Some(c[k])
  }

  /** A record appended to the catalog takes over its name. */
  lemma LookupSnoc(c: seq<Machine>, m: Machine, n: Name)
    ensures Lookup(c + [m], n) == if m.name == n then Some(m) else Lookup(c, n)
  {
    assert (c + [m])[..|c|] == c;
    assert LastIndex(c + [m], n) == if m.name == n then |c| else LastIndex(c, n);
  }

  /** `n` names a catalog machine and that machine (the last one so named) has ROMs. */
  predicate ResolvesWithRoms(c: seq<Machine>, n: Name) {
    Lookup(c, n).Some? && HasRoms(Lookup(c, n).value)
  }
}
