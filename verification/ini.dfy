/** Configuration sections as the organiser's scripts see them once the INI
    parser has read the file, and the parser's boolean reading of a value. */
module Ini {
  import opened Common
  import opened Text

  /** A section's entries in declaration order, keys exactly as the parser
      delivers them (case-preserved or folded, depending on the script). */
  type Section = seq<(string, string)>

  /** Sections by name; a file that cannot be read contributes no section. */
  type Config = map<string, Section>

  /** The curated-list section. */
  const AknfSectionName := "AllKillerNoFillerRoms"

  /** The keys of a section, in declaration order. */
  function Keys(s: Section): (ks: seq<string>)
    ensures |ks| == |s|
    ensures forall i :: 0 <= i < |s| ==> ks[i] == s[i].0
  {
    seq(|s|, i requires 0 <= i < |s| => s[i].0)
  }

  /** The literals ConfigParser.getboolean reads as true and as false, after lower-casing. */
  const TrueLiterals: set<string> := {"1", "yes", "true", "on"}
  const FalseLiterals: set<string> := {"0", "no", "false", "off"}

  /** ConfigParser.getboolean on one value: `None` is the ValueError it raises
      for any other literal. */
  function ParseBool(v: string): (r: Option<bool>)
    ensures r == Some(true) <==> LowerAscii(v) in TrueLiterals
    ensures r == Some(false) <==> LowerAscii(v) in FalseLiterals
    ensures r == None <==> LowerAscii(v) !in TrueLiterals + FalseLiterals
  {
    var l := LowerAscii(v);
    if l in TrueLiterals then Some(true)
    else if l in FalseLiterals then Some(false)
    else None
  }

  /** The boolean reading ignores case. */
  lemma ParseBoolIgnoresCase(v: string)
    ensures ParseBool(v) == ParseBool(LowerAscii(v))
  {
    LowerAsciiIdempotent(v);
  }

  /** Every accepted literal reads back as the boolean it spells, in any case. */
  lemma ParseBoolLiterals(v: string)
    requires LowerAscii(v) in TrueLiterals + FalseLiterals
    ensures ParseBool(v) == Some(LowerAscii(v) in TrueLiterals)
  {
  }
}
