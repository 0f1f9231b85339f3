/** The outcome of a conversion run: the boolean the converter returns, and the
    record list it writes to the JSON output, if any. Reading the XML file and
    writing the JSON file are abstracted to what they can yield. */
module Conversion {
  import opened Common
  import opened Xml
  import opened Catalog
  import opened Normaliser

  /** What parsing the XML input yields: no such file (FileNotFoundError), a
      document that is not well-formed (ParseError), or its root element. */
  datatype XmlInput = Missing | Malformed | Parsed(root: Element)

  /** The converter's return value and the records it wrote (`None`: nothing written). */
  datatype Outcome = Outcome(success: bool, written: Option<seq<Machine>>)

  /** The standalone converter: parse, normalise every `machine` element, write.
      `outputOpens` is false when opening the JSON output raises
      FileNotFoundError (its directory does not exist). */
  function ConvertMameXmlToJson(input: XmlInput, outputOpens: bool): (r: Outcome)
    ensures r.success <==> input.Parsed? && outputOpens
    ensures r.written.Some? <==> r.success
    ensures r.success ==> |r.written.value| == |FindAll(input.root, "machine")|
    ensures r.success ==> forall i :: 0 <= i < |r.written.value| ==>
                            r.written.value[i] == ToMachine(FindAll(input.root, "machine")[i])
  {
    match input
    case Missing => Outcome(false, None)
    case Malformed => Outcome(false, None)
    case Parsed(root) =>
      var machines := Normalise(root);
      if outputOpens then Outcome(true, Some(machines)) else Outcome(false, None)
  }

  /** The converter of the organiser: it first returns success, touching nothing,
      when the JSON output already exists, whatever its content. */
  function ConvertXmlToJson(jsonExists: bool, input: XmlInput, outputOpens: bool): (r: Outcome)
    ensures jsonExists ==> r == Outcome(true, None)
    ensures !jsonExists ==> (r.success <==> input.Parsed? && outputOpens)
    ensures r.written.Some? <==> !jsonExists && input.Parsed? && outputOpens
    ensures r.written.Some? ==> r.written.value == Normalise(input.root)
  {
    if jsonExists then Outcome(true, None) else ConvertMameXmlToJson(input, outputOpens)
  }

  /** One run of the organiser's converter against the JSON output location
      (`None`: no file there); returns the location afterwards and the return value. */
  function Materialise(store: Option<seq<Machine>>, input: XmlInput, outputOpens: bool): (Option<seq<Machine>>, bool) {
    var o := ConvertXmlToJson(store.Some?, input, outputOpens);
    (if o.written.Some? then o.written else store, o.success)
  }

  /** Materialisation is idempotent: after a successful run, a second run with
      the same input succeeds, leaves the output as it is, and the output holds
      the records of the first parse. */
  lemma MaterialiseIdempotent(store: Option<seq<Machine>>, input: XmlInput, outputOpens: bool)
    ensures var (after, ok) := Materialise(store, input, outputOpens);
            ok ==> Materialise(after, input, outputOpens) == (after, true)
    ensures var (after, ok) := Materialise(store, input, outputOpens);
            ok && store.None? ==> input.Parsed? && after == Some(Normalise(input.root))
  {
  }

  /** An existing output is kept as it is, even when the input has changed or
      would not parse: existence, not content, decides. */
  lemma ExistingOutputKept(previous: seq<Machine>, input: XmlInput, outputOpens: bool)
    ensures Materialise(Some(previous), input, outputOpens) == (Some(previous), true)
  {
  }

  /** A failed run (missing or malformed input, or an output that cannot be
      opened) leaves no output behind. */
  lemma FailureWritesNothing(input: XmlInput, outputOpens: bool)
    ensures !input.Parsed? || !outputOpens ==>
              Materialise(None, input, outputOpens) == (None, false)
  {
  }
}
