/** The control panel: reading the colour inputs and the pattern selector
    of a page, painting a colour swatch, and building the form body sent to
    the LED controller. The page is an immutable snapshot from element id
    to element; painting a swatch yields the next snapshot. */
module Panel {
  import opened Numeric
  import opened Hsv
  import opened Decimal
  import opened Text

  datatype Option<T> = None | Some(value: T)

  /** The elements the panel touches: a numeric `<input>` (with its
      `valueAsNumber`), a `<select>` (with its current value), an SVG
      element (with its `fill` style) and anything else. */
  datatype Element = Input(number: real) | Select(choice: string) | Svg(fill: string) | Other

  type Document = map<string, Element>

  /** `get_value`: the number of the input with this id, or 0 when there is
      no such element or it is not an input. */
  function GetValue(doc: Document, id: string): real
  {
    if id in doc && doc[id].Input? then doc[id].number else 0.0
  }

  /** `get_pattern`: the selector's value parsed as a decimal byte, or 0
      when the element is missing, is not a selector, or its value does not
      parse. */
  function GetPattern(doc: Document, id: string): u8
  {
    if id in doc && doc[id].Select? then
      match ParseU8(doc[id].choice)
      case Ok(n) => n
      case Err(_) => 0
    else 0
  }

  /** The selector's value is read as the number its digits denote when it
      is valid `u8` text, and as 0 in every other case. */
  lemma GetPatternSpec(doc: Document, id: string)
    ensures var valid := id in doc && doc[id].Select? && ValidU8Text(doc[id].choice);
      && (valid ==> GetPattern(doc, id) == Value(Digits(doc[id].choice)))
      && (!valid ==> GetPattern(doc, id) == 0)
  {
    if id in doc && doc[id].Select? {
      ParseU8Spec(doc[id].choice);
    }
  }

  /** A selector holding the rendering of a byte is read as that byte. */
  lemma PatternRoundTrip(doc: Document, id: string, n: u8)
    ensures GetPattern(doc[id := Select(Render(n))], id) == n
  {
    RenderParse(n);
  }

  /** The three colour slots of the panel. */
  datatype Slot = Color1 | Color2 | Color3

  function SlotName(slot: Slot): string
  {
    match slot
    case Color1 => "color1"
    case Color2 => "color2"
    case Color3 => "color3"
  }

  function HueId(slot: Slot): string { SlotName(slot) + "_h" }
  function SatId(slot: Slot): string { SlotName(slot) + "_s" }
  function ValId(slot: Slot): string { SlotName(slot) + "_v" }
  function SwatchId(slot: Slot): string { SlotName(slot) + "_swatch" }

  /** The colour the three inputs of a slot currently hold. */
  function ReadHsv(doc: Document, slot: Slot): ColorHsv
  {
    ColorHsv(GetValue(doc, HueId(slot)), GetValue(doc, SatId(slot)), GetValue(doc, ValId(slot)))
  }

  /** The CSS colour `rgba(r, g, b, 1.0)` of a pixel. */
  function Fill(p: Pixel): string
  {
    "rgba(" + Render(p.r) + ", " + Render(p.g) + ", " + Render(p.b) + ", 1.0)"
  }

  /** Reads a fill of the shape `Fill` writes back into a pixel. */
  function ParseFill(s: string): Option<Pixel>
  {
    if |s| < 11 || s[..5] != "rgba(" || s[|s| - 6..] != ", 1.0)" then None
    else
      var parts := Split(s[5..|s| - 6], ',');
      if |parts| != 3 || |parts[1]| == 0 || |parts[2]| == 0 || parts[1][0] != ' ' || parts[2][0] != ' ' then None
      else
        match (ParseU8(parts[0]), ParseU8(parts[1][1..]), ParseU8(parts[2][1..]))
        case (Ok(r), Ok(g), Ok(b)) => Some(Pixel(r, g, b))
        case _ => None
  }

  /** A string of digits holds no character that is not a digit. */
  lemma DigitsExclude(s: string, c: char)
    requires AllDigits(s) && !IsDigit(c)
    ensures c !in s
  {
  }

  /** The three numbers of a fill come apart at the commas. */
  lemma SplitChannels(r: string, g: string, b: string)
    requires AllDigits(r) && AllDigits(g) && AllDigits(b)
    ensures Split(r + ", " + g + ", " + b, ',') == [r, " " + g, " " + b]
  {
    var parts := [r, " " + g, " " + b];
    assert Join(parts[2..], ',') == " " + b;
    assert Join(parts[1..], ',') == " " + g + [','] + " " + b;
    assert r + ", " + g + ", " + b == Join(parts, ',');
    DigitsExclude(r, ',');
    DigitsExclude(g, ',');
    DigitsExclude(b, ',');
    assert ',' !in " " + g && ',' !in " " + b;
    JoinSplit(parts, ',');
  }

  /** A fill is `rgba(`, the three numbers, and `, 1.0)`. */
  lemma FillShape(p: Pixel)
    ensures var s, middle := Fill(p), Render(p.r) + ", " + Render(p.g) + ", " + Render(p.b);
      && |s| >= 11 && s[..5] == "rgba(" && s[|s| - 6..] == ", 1.0)" && s[5..|s| - 6] == middle
  {
  }

  /** Reading a fill back gives the pixel that was written. */
  lemma FillRoundTrip(p: Pixel)
    ensures ParseFill(Fill(p)) == Some(p)
  {
    var r, g, b := Render(p.r), Render(p.g), Render(p.b);
    FillShape(p);
    SplitChannels(r, g, b);
    assert (" " + g)[1..] == g && (" " + b)[1..] == b;
    RenderParse(p.r);
    RenderParse(p.g);
    RenderParse(p.b);
  }

  /** Different pixels are painted with different fills. */
  lemma FillInjective(p: Pixel, q: Pixel)
    ensures Fill(p) == Fill(q) <==> p == q
  {
    FillRoundTrip(p);
    FillRoundTrip(q);
  }

  /** `set_swatch`: convert the slot's colour and paint the swatch with it.
      `None` stands for the panic of the lookup of the swatch, which must
      exist and be an SVG element; the inputs themselves may be missing. */
  function SetSwatch(doc: Document, slot: Slot): Option<Document>
  {
    Paint(doc, SwatchId(slot), SwatchFill(doc, slot))
  }

  /** The fill the slot's current colour is painted with. */
  function SwatchFill(doc: Document, slot: Slot): string
  {
    Fill(Hsv2Rgb(ReadHsv(doc, slot)))
  }

  /** `get_svg` then setting the `fill` style: `None` when the element is
      missing or not an SVG element. */
  function Paint(doc: Document, id: string, fill: string): Option<Document>
  {
    if id in doc && doc[id].Svg? then Some(doc[id := Svg(fill)]) else None
  }

  /** Painting two different elements can happen in either order. */
  lemma PaintCommutes(doc: Document, x: string, y: string, fx: string, fy: string)
    requires x != y
    ensures var first := Paint(doc, x, fx);
      var second := Paint(doc, y, fy);
      && (first.Some? ==> Paint(first.value, y, fy) == (if second.Some? then Paint(second.value, x, fx) else None))
      && (second.Some? ==> Paint(second.value, x, fx) == (if first.Some? then Paint(first.value, y, fy) else None))
  {
    if x in doc && doc[x].Svg? && y in doc && doc[y].Svg? {
      assert doc[x := Svg(fx)][y := Svg(fy)] == doc[y := Svg(fy)][x := Svg(fx)];
    }
  }

  /** The swatch of a slot is never one of the inputs of any slot. */
  lemma SwatchIsNotAnInput(a: Slot, b: Slot)
    ensures SwatchId(a) != HueId(b) && SwatchId(a) != SatId(b) && SwatchId(a) != ValId(b)
  {
  }

  lemma SwatchIdsDistinct(a: Slot, b: Slot)
    requires a != b
    ensures SwatchId(a) != SwatchId(b)
  {
    assert SwatchId(a)[5] != SwatchId(b)[5];
  }

  /** Painting succeeds exactly when the swatch is an SVG element; it
      changes only the swatch, whose fill then reads back as the converted
      colour of the slot's inputs. */
  lemma SetSwatchSpec(doc: Document, slot: Slot)
    ensures var id := SwatchId(slot);
      SetSwatch(doc, slot).Some? <==> id in doc && doc[id].Svg?
    ensures SetSwatch(doc, slot).Some? ==>
      var next, id := SetSwatch(doc, slot).value, SwatchId(slot);
      && next.Keys == doc.Keys
      && (forall k :: k in doc && k != id ==> next[k] == doc[k])
      && next[id].Svg?
      && ParseFill(next[id].fill) == Some(Hsv2Rgb(ReadHsv(doc, slot)))
  {
    FillRoundTrip(Hsv2Rgb(ReadHsv(doc, slot)));
  }

  /** Painting a swatch does not change what any slot reads. */
  lemma PaintingKeepsInputs(doc: Document, a: Slot, b: Slot, fill: string)
    ensures ReadHsv(doc[SwatchId(a) := Svg(fill)], b) == ReadHsv(doc, b)
  {
    SwatchIsNotAnInput(a, b);
  }

  /** Painting a swatch does not change the fill any slot computes. */
  lemma PaintingKeepsFill(doc: Document, a: Slot, b: Slot, fill: string)
    ensures SwatchFill(doc[SwatchId(a) := Svg(fill)], b) == SwatchFill(doc, b)
  {
    PaintingKeepsInputs(doc, a, b, fill);
  }

  /** Painting the same swatch twice is painting it once. */
  lemma SetSwatchIdempotent(doc: Document, slot: Slot)
    requires SetSwatch(doc, slot).Some?
    ensures var next := SetSwatch(doc, slot).value;
      SetSwatch(next, slot) == Some(next)
  {
    var next := SetSwatch(doc, slot).value;
    var fill := SwatchFill(doc, slot);
    PaintingKeepsFill(doc, slot, slot, fill);
    assert next[SwatchId(slot) := Svg(fill)] == next;
  }

  /** `SetSwatch` of `a`, then of `b`; a panic stops the sequence. */
  function SetBoth(doc: Document, a: Slot, b: Slot): Option<Document>
  {
    match SetSwatch(doc, a)
    case None => None
    case Some(next) => SetSwatch(next, b)
  }

  /** The swatches of different slots can be painted in either order. */
  lemma SetSwatchCommutes(doc: Document, a: Slot, b: Slot)
    requires a != b
    ensures SetBoth(doc, a, b) == SetBoth(doc, b, a)
  {
    SwatchIdsDistinct(a, b);
    var fa, fb := SwatchFill(doc, a), SwatchFill(doc, b);
    PaintingKeepsFill(doc, a, b, fa);
    PaintingKeepsFill(doc, b, a, fb);
    PaintCommutes(doc, SwatchId(a), SwatchId(b), fa, fb);
  }

  // ---------------------------------------------------------------------
  // The body of the request to the LED controller.
  // ---------------------------------------------------------------------

  /** The names of the ten fields, in the order the body sends them. */
  const FieldNames: seq<string> := [
    "color1_h", "color1_s", "color1_v",
    "color2_h", "color2_s", "color2_v",
    "color3_h", "color3_s", "color3_v",
    "pattern"]

  /** The literal text of `set_leds`'s `format!` template around its ten
      placeholders. */
  const BodyTemplate: seq<string> := [
    "color1_h=", "&color1_s=", "&color1_v=",
    "&color2_h=", "&color2_s=", "&color2_v=",
    "&color3_h=", "&color3_s=", "&color3_v=",
    "&pattern="]

  /** The arguments of the template: the nine colour numbers rendered by
      `fmt` (the `Display` of `f64`), then the pattern byte in decimal. */
  function BodyArgs(doc: Document, fmt: real -> string): (args: seq<string>)
    ensures |args| == 10
  {
    [
      fmt(GetValue(doc, "color1_h")),
      fmt(GetValue(doc, "color1_s")),
      fmt(GetValue(doc, "color1_v")),
      fmt(GetValue(doc, "color2_h")),
      fmt(GetValue(doc, "color2_s")),
      fmt(GetValue(doc, "color2_v")),
      fmt(GetValue(doc, "color3_h")),
      fmt(GetValue(doc, "color3_s")),
      fmt(GetValue(doc, "color3_v")),
      Render(GetPattern(doc, "pattern"))
    ]
  }

  /** `set_leds`'s request body. */
  function Body(doc: Document, fmt: real -> string): string
  {
    Interpolate(BodyTemplate, BodyArgs(doc, fmt))
  }

  /** The fields the body is meant to carry, name by name. */
  function BodyFields(doc: Document, fmt: real -> string): (fields: seq<Field>)
    ensures |fields| == 10
  {
    var args := BodyArgs(doc, fmt);
    seq(10, i requires 0 <= i < 10 => Field(FieldNames[i], args[i]))
  }

  /** `f64`'s `Display` never writes `&`. */
  ghost predicate AmpersandFree(fmt: real -> string)
  {
    forall x :: '&' !in fmt(x)
  }

  /** Each piece of the template is `&`, a field name and `=` (without the
      `&` for the first). */
  lemma TemplateShape()
    ensures |BodyTemplate| == |FieldNames| == 10
    ensures BodyTemplate[0] == FieldNames[0] + "="
    ensures forall i :: 1 <= i < 10 ==> BodyTemplate[i] == "&" + FieldNames[i] + "="
  {
  }

  /** The field names hold neither `&` nor `=`. */
  lemma FieldNamesPlain(i: nat)
    requires i < 10
    ensures '&' !in FieldNames[i] && '=' !in FieldNames[i]
  {
  }

  /** The body is the form encoding of its fields. */
  lemma BodyIsFormEncoded(doc: Document, fmt: real -> string)
    ensures Body(doc, fmt) == FormEncode(BodyFields(doc, fmt))
  {
    var args, fields := BodyArgs(doc, fmt), BodyFields(doc, fmt);
    TemplateShape();
    InterpolateEncodes(BodyTemplate, FieldNames, args);
    assert EncodeAll(fields) == Pairs(FieldNames, args);
  }

  /** Decoding the body as form data gives exactly the ten fields, in order,
      provided the number rendering writes no `&`. */
  lemma BodyDecodes(doc: Document, fmt: real -> string)
    requires AmpersandFree(fmt)
    ensures FormDecode(Body(doc, fmt)) == BodyFields(doc, fmt)
  {
    var args, fields := BodyArgs(doc, fmt), BodyFields(doc, fmt);
    forall i | 0 <= i < 10 ensures Encodable(fields[i]) {
      FieldNamesPlain(i);
      if i == 9 {
        DigitsExclude(args[9], '&');
      } else {
        ColourArg(doc, fmt, i);
      }
    }
    BodyIsFormEncoded(doc, fmt);
    FormRoundTrip(fields);
  }

  /** The pattern field of the body parses back to the pattern that was
      read. */
  lemma PatternFieldParses(doc: Document, fmt: real -> string)
    ensures ParseU8(BodyFields(doc, fmt)[9].value) == Ok(GetPattern(doc, "pattern"))
  {
    RenderParse(GetPattern(doc, "pattern"));
  }

  /** The ten field names are pairwise different. */
  lemma FieldNamesDistinct(i: nat, j: nat)
    requires i < j < 10
    ensures FieldNames[i] != FieldNames[j]
  {
  }

  /** The `i`-th colour argument is the rendering of the input named by the
      `i`-th field name. */
  lemma ColourArg(doc: Document, fmt: real -> string, i: nat)
    requires i < 9
    ensures BodyArgs(doc, fmt)[i] == fmt(GetValue(doc, FieldNames[i]))
  {
  }

  /** A colour input missing from the page is sent as `fmt(0.0)`, and no
      other field changes. */
  lemma MissingInputSendsZero(doc: Document, i: nat, fmt: real -> string)
    requires i < 9
    ensures BodyFields(doc - {FieldNames[i]}, fmt) ==
      BodyFields(doc, fmt)[i := Field(FieldNames[i], fmt(0.0))]
  {
    var smaller := doc - {FieldNames[i]};
    var before, after := BodyFields(doc, fmt), BodyFields(smaller, fmt);
    FieldNamesDistinct(i, 9);
    forall j | 0 <= j < 10
      ensures after[j] == before[i := Field(FieldNames[i], fmt(0.0))][j]
    {
      if j < 9 {
        ColourArg(doc, fmt, j);
        ColourArg(smaller, fmt, j);
      }
      if j < i {
        FieldNamesDistinct(j, i);
      } else if i < j {
        FieldNamesDistinct(i, j);
      }
    }
  }

  /** An empty page sends every colour number as `fmt(0.0)` and pattern 0. */
  lemma EmptyPageFields(fmt: real -> string)
    ensures forall i :: 0 <= i < 9 ==> BodyFields(map[], fmt)[i].value == fmt(0.0)
    ensures BodyFields(map[], fmt)[9].value == "0"
  {
  }
}
