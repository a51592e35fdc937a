/** The per-glyph tables of an OpenType MATH table (`MTFontMathTable`) and
    the lookups the typesetter makes into them.

    The tables are the ones the font converter writes to the plist:
    vertical and horizontal variant lists, italic corrections, top-accent
    attachments and vertical glyph assemblies. Values are kept in font
    design units; the model does no arithmetic on them. */
module FontMathTables {
  import opened Foundation

  /** `CGGlyph`, an unsigned 16-bit glyph id. */
  type Glyph = g: int | 0 <= g < 0x1_0000

  /** `MTGlyphPart`, one piece of an assembled glyph. */
  datatype GlyphPart = GlyphPart(
    glyph: Glyph,
    fullAdvance: int,
    startConnectorLength: int,
    endConnectorLength: int,
    isExtender: bool)

  /** A glyph part record of the font's MATH table, as the converter reads
      it: the connector lengths, the advance and the raw part flags, which
      the converter turns into an extender flag. */
  datatype PartRecord = PartRecord(
    glyph: Glyph,
    startConnector: int,
    endConnector: int,
    advance: int,
    partFlags: int)

  /** The flags value the converter reads as "this part is an extender". */
  const ExtenderFlag := 1

  /** The part a record describes: the lengths carry over and the part is an
      extender exactly when its flags equal the extender flag. */
  function PartOf(rec: PartRecord): (p: GlyphPart)
    ensures p.glyph == rec.glyph && p.fullAdvance == rec.advance
    ensures p.startConnectorLength == rec.startConnector
    ensures p.endConnectorLength == rec.endConnector
    ensures p.isExtender <==> rec.partFlags == ExtenderFlag
  {
    GlyphPart(rec.glyph, rec.advance, rec.startConnector, rec.endConnector,
      rec.partFlags == ExtenderFlag)
  }

  /** A record for a part, with flags 1 for an extender and 0 otherwise. */
  function RecordOf(p: GlyphPart): (rec: PartRecord)
    ensures PartOf(rec) == p
    ensures rec.partFlags == 0 || rec.partFlags == ExtenderFlag
  {
    PartRecord(p.glyph, p.startConnectorLength, p.endConnectorLength, p.fullAdvance,
      if p.isExtender then ExtenderFlag else 0)
  }

  /** A record survives the trip through `PartOf` exactly when its flags are
      0 or the extender flag; any other flag bits are dropped. */
  lemma RecordRoundTrip(rec: PartRecord)
    ensures RecordOf(PartOf(rec)) == rec <==> rec.partFlags == 0 || rec.partFlags == ExtenderFlag
  {
  }

  /** A vertical glyph assembly: its italic correction and its parts, from
      bottom to top. */
  datatype GlyphAssembly = GlyphAssembly(italic: int, parts: seq<GlyphPart>)

  /** An assembly built from the converter's part records. */
  function AssemblyOf(italic: int, records: seq<PartRecord>): (a: GlyphAssembly)
    ensures a.italic == italic && |a.parts| == |records|
    ensures forall k :: 0 <= k < |records| ==> a.parts[k] == PartOf(records[k])
  {
    GlyphAssembly(italic, seq(|records|, k requires 0 <= k < |records| => PartOf(records[k])))
  }

  /** The per-glyph tables; a glyph with no entry has none of that data. */
  datatype MathTable = MathTable(
    vVariants: map<Glyph, seq<Glyph>>,
    hVariants: map<Glyph, seq<Glyph>>,
    italic: map<Glyph, int>,
    accents: map<Glyph, int>,
    vAssembly: map<Glyph, GlyphAssembly>)

  /** A variant list from `variants`, or just the glyph when it has none. */
  function VariantsIn(variants: map<Glyph, seq<Glyph>>, g: Glyph): (r: seq<Glyph>)
    ensures |r| > 0
    ensures g !in variants || |variants[g]| == 0 ==> r == [g]
    ensures g in variants && |variants[g]| > 0 ==> r == variants[g]
  {
    if g in variants && |variants[g]| > 0 then variants[g] else [g]
  }

  /** `getVerticalVariantsForGlyph:` */
  function GetVerticalVariants(t: MathTable, g: Glyph): (r: seq<Glyph>)
    ensures |r| > 0
    ensures g !in t.vVariants || |t.vVariants[g]| == 0 ==> r == [g]
    ensures g in t.vVariants && |t.vVariants[g]| > 0 ==> r == t.vVariants[g]
  {
    VariantsIn(t.vVariants, g)
  }

  /** `getHorizontalVariantsForGlyph:` */
  function GetHorizontalVariants(t: MathTable, g: Glyph): (r: seq<Glyph>)
    ensures |r| > 0
    ensures g !in t.hVariants || |t.hVariants[g]| == 0 ==> r == [g]
    ensures g in t.hVariants && |t.hVariants[g]| > 0 ==> r == t.hVariants[g]
  {
    VariantsIn(t.hVariants, g)
  }

  /** The first glyph of `vs` other than `g`, or `g` when there is none. */
  function FirstOther(vs: seq<Glyph>, g: Glyph): (r: Glyph)
    ensures r == g <==> forall k :: 0 <= k < |vs| ==> vs[k] == g
    ensures r != g ==> exists k :: 0 <= k < |vs| && vs[k] == r && forall j :: 0 <= j < k ==> vs[j] == g
    decreases |vs|
  {
    if |vs| == 0 then g
    else if vs[0] != g then vs[0]
    else
      var r := FirstOther(vs[1..], g);
      assert forall k :: 1 <= k < |vs| ==> vs[k] == vs[1..][k - 1];
      r
  }

  /** `getLargerGlyph:`: OpenType lists a glyph's variants by increasing
      size, so the larger glyph is taken to be the first listed variant that
      differs from `g`, and `g` itself when there is none. */
  function GetLargerGlyph(t: MathTable, g: Glyph): (r: Glyph)
    ensures r == g <==> forall k :: 0 <= k < |GetVerticalVariants(t, g)| ==> GetVerticalVariants(t, g)[k] == g
    ensures r in GetVerticalVariants(t, g)
    ensures g !in t.vVariants ==> r == g
  {
    var vs := GetVerticalVariants(t, g);
    var r := FirstOther(vs, g);
    assert r == g ==> vs[0] == g;
    r
  }

  /** `getItalicCorrection:`, 0 for a glyph with no entry. */
  function GetItalicCorrection(t: MathTable, g: Glyph): (r: int)
    ensures g !in t.italic ==> r == 0
    ensures g in t.italic ==> r == t.italic[g]
  {
    if g in t.italic then t.italic[g] else 0
  }

  /** `getTopAccentAdjustment:`, -1 for a glyph with no entry. */
  function GetTopAccentAdjustment(t: MathTable, g: Glyph): (r: int)
    ensures g !in t.accents ==> r == -1
    ensures g in t.accents ==> r == t.accents[g]
  {
    if g in t.accents then t.accents[g] else -1
  }

  /** `getVerticalGlyphAssemblyForGlyph:`, nil when no assembly is defined. */
  function GetVerticalGlyphAssembly(t: MathTable, g: Glyph): (r: Option<seq<GlyphPart>>)
    ensures r.None? <==> g !in t.vAssembly
    ensures r.Some? ==> r.value == t.vAssembly[g].parts
  {
    if g in t.vAssembly then Some(t.vAssembly[g].parts) else None
  }

  /** The parts of an assembly read from records are extenders exactly
      where the records carry the extender flag. */
  lemma AssemblyExtenders(t: MathTable, g: Glyph, italic: int, records: seq<PartRecord>)
    requires g in t.vAssembly && t.vAssembly[g] == AssemblyOf(italic, records)
    ensures GetVerticalGlyphAssembly(t, g).Some?
    ensures var parts := GetVerticalGlyphAssembly(t, g).value;
      |parts| == |records| &&
      forall k :: 0 <= k < |parts| ==> (parts[k].isExtender <==> records[k].partFlags == ExtenderFlag)
  {
  }

  /** `limitExtraAscenderDescender`: TeX's xi_13 has no OpenType
      counterpart, so it is 0 for every font. */
  function LimitExtraAscenderDescender(t: MathTable): (r: int)
    ensures r == 0
  {
    0
  }
}
