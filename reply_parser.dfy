/**
 * The reply parser of `process_image`: the vision model answers with one
 * line `object_name,color,HxW,manufacturer,specification,description`, and
 * the parser cuts it into the fields of a catalogue row. A transcription of
 * the user's audio note, when there is one, replaces the description.
 */
module ReplyParser {
  import opened Wrappers
  import opened Text

  /** The six values the parser derives from one reply. */
  datatype ParsedReply = ParsedReply(
    objectName: string,
    color: string,
    dimensions: string,
    manufacturer: string,
    specification: string,
    description: string)

  /**
   * The `IndexError` the parser raises: the comma field with this index does
   * not exist, or the dimension field has no `x` and so no width.
   */
  datatype ParseError = FieldMissing(index: nat) | WidthMissing

  /** `f"Height={height}cm, Width={width}cm"`. */
  function FormatDimensions(height: string, width: string): string
  {
    "Height=" + height + "cm, Width=" + width + "cm"
  }

  /** Python truthiness of `transcription`: neither `None` nor the empty text. */
  predicate HasTranscription(transcription: Option<string>)
  {
    transcription.Some? && transcription.value != ""
  }

  /** Field `i` stripped of surrounding whitespace, or "" when the reply has no such field. */
  function OptionalField(data: seq<string>, i: nat): string
  {
    if |data| > i then Strip(data[i]) else ""
  }

  /** Parses a reply line, with an optional transcription that overrides the description. */
  function Parse(reply: string, transcription: Option<string>): Result<ParsedReply, ParseError>
  {
    FromFields(Split(reply, ','), transcription)
  }

  /** The parser's work once the reply is split into its comma fields `data`. */
  function FromFields(data: seq<string>, transcription: Option<string>): Result<ParsedReply, ParseError>
  {
    if |data| < 2 then Failure(FieldMissing(1))
    else if |data| < 3 then Failure(FieldMissing(2))
    else
      var dimension := Split(data[2], 'x');
      if |dimension| < 2 then Failure(WidthMissing)
      else
        var description :=
          if HasTranscription(transcription) then transcription.value else OptionalField(data, 5);
        Success(ParsedReply(
          data[0], data[1], FormatDimensions(dimension[0], dimension[1]),
          OptionalField(data, 3), OptionalField(data, 4), description))
  }

  /**
   * The parser fails exactly on a reply with fewer than two commas, or whose
   * third field holds no `x`; which `IndexError` it is follows from the
   * number of commas.
   */
  lemma ParseFailsExactly(reply: string, transcription: Option<string>)
    ensures multiset(reply)[','] == 0 ==> Parse(reply, transcription) == Failure(FieldMissing(1))
    ensures multiset(reply)[','] == 1 ==> Parse(reply, transcription) == Failure(FieldMissing(2))
    ensures multiset(reply)[','] >= 2 ==>
      (|Split(reply, ',')| >= 3 &&
       (Parse(reply, transcription).Failure? <==> 'x' !in Split(reply, ',')[2]) &&
       (Parse(reply, transcription).Failure? ==> Parse(reply, transcription).error == WidthMissing))
  {
    SplitCount(reply, ',');
    var data := Split(reply, ',');
    if |data| >= 3 {
      SplitCount(data[2], 'x');
      assert 'x' in data[2] <==> 'x' in multiset(data[2]);
    }
  }

  /**
   * On success, the object name is the text before the first comma and the
   * color the text between the first and the second comma, both unstripped.
   */
  lemma NameAndColor(reply: string, transcription: Option<string>)
    requires Parse(reply, transcription).Success?
    ensures var p := Parse(reply, transcription).value;
      ',' !in p.objectName && ',' !in p.color &&
      p.objectName + [','] + p.color + [','] <= reply
  {
    var data := Split(reply, ',');
    JoinSplit(reply, ',');
    JoinCons(data[0], data[1..], ',');
    JoinCons(data[1], data[2..], ',');
    assert data[1..][1..] == data[2..];
    assert [data[0]] + data[1..] == data;
    assert [data[1]] + data[2..] == data[1..];
  }

  /** `FromFields` reads height and width off the pieces of the third field. */
  lemma FromFieldsDimensions(data: seq<string>, transcription: Option<string>,
                             height: string, width: string)
    requires |data| >= 3
    requires var d := Split(data[2], 'x'); |d| >= 2 && d[0] == height && d[1] == width
    ensures FromFields(data, transcription).Success?
    ensures FromFields(data, transcription).value.dimensions == FormatDimensions(height, width)
  {
  }

  /**
   * On success, the dimensions use the text before the first `x` of the third
   * field as the height and the text between its first and second `x` as the
   * width.
   */
  lemma DimensionsFromThirdField(reply: string, transcription: Option<string>,
                                 height: string, width: string, rest: string)
    requires |Split(reply, ',')| >= 3
    requires Split(reply, ',')[2] == height + ['x'] + width + rest
    requires 'x' !in height && 'x' !in width && (rest == [] || rest[0] == 'x')
    ensures Parse(reply, transcription).Success?
    ensures Parse(reply, transcription).value.dimensions == FormatDimensions(height, width)
  {
    var data := Split(reply, ',');
    SplitHeightWidth(height, width, rest);
    FromFieldsDimensions(data, transcription, height, width);
  }

  /** `h x w` followed by nothing or by another `x` splits on `x` into `h`, `w` and possibly more. */
  lemma SplitHeightWidth(height: string, width: string, rest: string)
    requires 'x' !in height && 'x' !in width && (rest == [] || rest[0] == 'x')
    ensures var d := Split(height + ['x'] + width + rest, 'x');
      |d| >= 2 && d[0] == height && d[1] == width
  {
    assert height + ['x'] + width + rest == height + ['x'] + (width + rest);
    SplitAfter(height, 'x', width + rest);
    if rest == [] {
      assert width + rest == width;
      SplitNone(width, 'x');
    } else {
      assert width + rest == width + ['x'] + rest[1..];
      SplitAfter(width, 'x', rest[1..]);
    }
  }

  /**
   * Manufacturer and specification are the stripped fourth and fifth fields,
   * or "" when the reply stops before them; without a transcription the
   * description is the stripped sixth field, or "".
   */
  lemma TrailingFields(reply: string, transcription: Option<string>)
    requires |Split(reply, ',')| >= 3 && 'x' in Split(reply, ',')[2]
    ensures var data, r := Split(reply, ','), Parse(reply, transcription);
      r.Success? &&
      r.value.manufacturer == (if |data| > 3 then Strip(data[3]) else "") &&
      r.value.specification == (if |data| > 4 then Strip(data[4]) else "") &&
      (!HasTranscription(transcription) ==>
         r.value.description == (if |data| > 5 then Strip(data[5]) else ""))
  {
    var data := Split(reply, ',');
    SplitCount(data[2], 'x');
    assert 'x' in multiset(data[2]);
  }

  /**
   * A non-empty transcription replaces the description and changes nothing
   * else, not even whether the parse fails; an empty or absent one leaves the
   * parse as it is without a transcription.
   */
  lemma TranscriptionOverrides(reply: string, transcription: Option<string>)
    ensures Parse(reply, transcription).Success? == Parse(reply, None).Success?
    ensures Parse(reply, transcription).Failure? ==>
      Parse(reply, transcription) == Parse(reply, None)
    ensures Parse(reply, transcription).Success? ==>
      Parse(reply, transcription).value ==
        if HasTranscription(transcription)
        then Parse(reply, None).value.(description := transcription.value)
        else Parse(reply, None).value
  {
    var data := Split(reply, ',');
    ParseOfFields(reply, transcription, data);
    ParseOfFields(reply, None, data);
    if |data| >= 3 && |Split(data[2], 'x')| >= 2 {
      var dimension := Split(data[2], 'x');
      var plain := ParsedReply(data[0], data[1], FormatDimensions(dimension[0], dimension[1]),
                               OptionalField(data, 3), OptionalField(data, 4), OptionalField(data, 5));
      assert FromFields(data, None) == Success(plain);
      assert FromFields(data, transcription) ==
        Success(if HasTranscription(transcription)
                then plain.(description := transcription.value) else plain);
    } else {
      assert FromFields(data, transcription) == FromFields(data, None);
    }
  }

  /** Parsing a reply is parsing its comma fields. */
  lemma ParseOfFields(reply: string, transcription: Option<string>, data: seq<string>)
    requires Split(reply, ',') == data
    ensures Parse(reply, transcription) == FromFields(data, transcription)
  {
  }

  /** No field holds a comma. */
  predicate CommaFree(fields: seq<string>)
  {
    forall i :: 0 <= i < |fields| ==> ',' !in fields[i]
  }

  /**
   * A reply with only the three mandatory fields parses, and manufacturer,
   * specification and (without a transcription) description are all "".
   */
  lemma ThreeFieldReply(fields: seq<string>, height: string, width: string,
                        transcription: Option<string>)
    requires |fields| == 3 && CommaFree(fields)
    requires fields[2] == height + "x" + width && 'x' !in height && 'x' !in width
    ensures Parse(Join(fields, ','), transcription) ==
      Success(ParsedReply(fields[0], fields[1], FormatDimensions(height, width), "", "",
                          if HasTranscription(transcription) then transcription.value else ""))
  {
    SplitJoin(fields, ',');
    ParseOfFields(Join(fields, ','), transcription, fields);
    SplitAfter(height, 'x', width);
    SplitNone(width, 'x');
    FromFieldsDimensions(fields, transcription, height, width);
  }

  /**
   * A well-formed six-field reply (no commas inside the fields, no `x` in
   * the height or the width) parses back into its fields, the last three
   * stripped and the description overridden by a transcription.
   */
  lemma SixFieldReply(fields: seq<string>, height: string, width: string,
                      transcription: Option<string>)
    requires |fields| == 6 && CommaFree(fields)
    requires fields[2] == height + "x" + width && 'x' !in height && 'x' !in width
    ensures Parse(Join(fields, ','), transcription) ==
      Success(ParsedReply(fields[0], fields[1], FormatDimensions(height, width),
                          Strip(fields[3]), Strip(fields[4]),
                          if HasTranscription(transcription) then transcription.value
                          else Strip(fields[5])))
  {
    SplitJoin(fields, ',');
    ParseOfFields(Join(fields, ','), transcription, fields);
    SplitAfter(height, 'x', width);
    SplitNone(width, 'x');
    FromFieldsDimensions(fields, transcription, height, width);
  }

  /** The fields of the sample reply "Lamp,Black,30x15,IKEA,Metal base,A simple desk lamp". */
  predicate IsDeskLamp(fields: seq<string>)
  {
    |fields| == 6 && fields[0] == "Lamp" && fields[1] == "Black" && fields[2] == "30x15" &&
    fields[3] == "IKEA" && fields[4] == "Metal base" && fields[5] == "A simple desk lamp"
  }

  lemma DeskLampDimensions()
    ensures FormatDimensions("30", "15") == "Height=30cm, Width=15cm"
  {
  }

  lemma DeskLampStrips(fields: seq<string>)
    requires IsDeskLamp(fields)
    ensures Strip(fields[3]) == fields[3] && Strip(fields[4]) == fields[4]
    ensures Strip(fields[5]) == fields[5]
  {
    StripTrimmed(fields[3]);
    StripTrimmed(fields[4]);
    StripTrimmed(fields[5]);
  }

  lemma DeskLampFields(fields: seq<string>)
    requires IsDeskLamp(fields)
    ensures Parse(Join(fields, ','), None) ==
      Success(ParsedReply(fields[0], fields[1], FormatDimensions("30", "15"),
                          fields[3], fields[4], fields[5]))
  {
    var h, w := "30", "15";
    assert fields[2] == h + "x" + w;
    SixFieldReply(fields, h, w, None);
    DeskLampStrips(fields);
  }

  /** The sample reply, the comma-join of the fields above, parsed without a transcription. */
  lemma DeskLampReply(fields: seq<string>)
    requires IsDeskLamp(fields)
    ensures Parse(Join(fields, ','), None) ==
      Success(ParsedReply("Lamp", "Black", "Height=30cm, Width=15cm", "IKEA", "Metal base",
                          "A simple desk lamp"))
  {
    DeskLampFields(fields);
    DeskLampDimensions();
  }

  /** The sample reply with a transcription: the description is the transcription. */
  lemma DeskLampWithTranscription(fields: seq<string>, note: string)
    requires IsDeskLamp(fields) && note != ""
    ensures Parse(Join(fields, ','), Some(note)) ==
      Success(ParsedReply("Lamp", "Black", "Height=30cm, Width=15cm", "IKEA", "Metal base", note))
  {
    DeskLampReply(fields);
    TranscriptionOverrides(Join(fields, ','), Some(note));
  }
}
