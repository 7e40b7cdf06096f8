/**
 * The `ImageData` catalogue row: one identified product photo, with the
 * number of times the same image content has been uploaded.
 */
module Records {
  import opened Text

  /** The stored image file; the model sees only its name under the upload directory. */
  datatype ImageFile = ImageFile(name: string)

  /** The image a row holds until one is assigned. */
  const DefaultImage := ImageFile("images/default.jpg")

  /**
   * The nine stored columns. `count` starts at 1 and `image` at the default
   * file when a row is created without them.
   */
  datatype ImageData = ImageData(
    objectName: string,
    color: string,
    count: int := 1,
    image: ImageFile := DefaultImage,
    dimensions: string,
    imageHash: string,
    manufacturer: string,
    specification: string,
    description: string)

  /** Declared column widths (`max_length`). */
  const ObjectNameMax := 100
  const ColorMax := 100
  const DimensionsMax := 100
  const ImageHashMax := 64
  const ManufacturerMax := 100
  const SpecificationMax := 1000
  const DescriptionMax := 1000

  /** Every text column is within its declared width. */
  predicate WithinCaps(e: ImageData)
  {
    |e.objectName| <= ObjectNameMax && |e.color| <= ColorMax &&
    |e.dimensions| <= DimensionsMax && |e.imageHash| <= ImageHashMax &&
    |e.manufacturer| <= ManufacturerMax && |e.specification| <= SpecificationMax &&
    |e.description| <= DescriptionMax
  }

  /**
   * A row created from its seven text and file columns alone, as the ORM does
   * when `count` is not given: `count` takes its default of 1.
   */
  function Create(objectName: string, color: string, image: ImageFile, dimensions: string,
                  imageHash: string, manufacturer: string, specification: string,
                  description: string): (e: ImageData)
    ensures e.count == 1
    ensures e.objectName == objectName && e.color == color && e.image == image
    ensures e.dimensions == dimensions && e.imageHash == imageHash
    ensures e.manufacturer == manufacturer && e.specification == specification
    ensures e.description == description
  {
    ImageData(objectName := objectName, color := color, image := image,
              dimensions := dimensions, imageHash := imageHash,
              manufacturer := manufacturer, specification := specification,
              description := description)
  }

  /**
   * A row created from its six text columns alone, as the ORM does when
   * neither `count` nor `image` is given: both take their defaults.
   */
  function CreateWithDefaults(objectName: string, color: string, dimensions: string,
                              imageHash: string, manufacturer: string, specification: string,
                              description: string): (e: ImageData)
    ensures e.count == 1 && e.image == ImageFile("images/default.jpg")
    ensures e.objectName == objectName && e.color == color
    ensures e.dimensions == dimensions && e.imageHash == imageHash
    ensures e.manufacturer == manufacturer && e.specification == specification
    ensures e.description == description
  {
    ImageData(objectName := objectName, color := color, dimensions := dimensions,
              imageHash := imageHash, manufacturer := manufacturer,
              specification := specification, description := description)
  }

  /** The row's text form, `"<object_name> (<color>): <count>"`. */
  function Display(e: ImageData): string
  {
    e.objectName + " (" + e.color + "): " + IntToString(e.count)
  }

  /**
   * The text form can be read back: it opens with the object name and
   * " (", the color follows and is closed by "): ", and the rest is a
   * numeral whose value is the count.
   */
  lemma DisplayReadsBack(e: ImageData)
    ensures var s, n, c := Display(e), |e.objectName|, |e.color|;
      |s| > n + c + 4 &&
      s[..n] == e.objectName && s[n..n + 2] == " (" &&
      s[n + 2..n + 2 + c] == e.color && s[n + 2 + c..n + c + 5] == "): " &&
      IsNumeral(s[n + c + 5..]) && NumeralValue(s[n + c + 5..]) == e.count &&
      (s[n + c + 5] == '-' <==> e.count < 0) &&
      var d := if e.count < 0 then s[n + c + 6..] else s[n + c + 5..];
      d[0] == '0' ==> d == "0"
  {
    var s, n, c := Display(e), |e.objectName|, |e.color|;
    IntToStringValue(e.count);
    assert s[n + c + 5..] == IntToString(e.count);
  }
}
