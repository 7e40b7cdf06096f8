/**
 * The catalogue table and the upsert-by-hash step of `process_image`: a
 * repeat upload of the same image content bumps the first row with that
 * content hash, a new one appends a row. The table is an in-memory sequence
 * of rows in primary-key order.
 */
module Catalog {
  import opened Wrappers
  import opened Records
  import opened ReplyParser

  /**
   * Position of the first row whose `image_hash` is `hash`: the row that
   * `filter(image_hash=hash).first()` returns, since an unordered query is
   * ordered by primary key.
   */
  function FirstMatch(rows: seq<ImageData>, hash: string): (r: Option<nat>)
    ensures r.Some? ==> r.value < |rows| && rows[r.value].imageHash == hash
    ensures r.Some? ==> forall j :: 0 <= j < r.value ==> rows[j].imageHash != hash
    ensures r.None? ==> forall j :: 0 <= j < |rows| ==> rows[j].imageHash != hash
  {
    if |rows| == 0 then None
    else if rows[0].imageHash == hash then Some(0)
    else
      match FirstMatch(rows[1..], hash)
      case None => None
      case Some(k) => Some(k + 1)
  }

  /**
   * The dict `process_image` returns. It has exactly six keys, and the
   * specification is shown under the plural key "specifications".
   */
  function Summary(objectName: string, color: string, dimensions: string, manufacturer: string,
                   specification: string, description: string): (d: map<string, string>)
    ensures d.Keys == {"object_name", "color", "dimensions", "manufacturer", "specifications",
                       "description"}
    ensures "specification" !in d
    ensures d["object_name"] == objectName && d["color"] == color
    ensures d["dimensions"] == dimensions && d["manufacturer"] == manufacturer
    ensures d["specifications"] == specification && d["description"] == description
  {
    map["object_name" := objectName, "color" := color, "dimensions" := dimensions,
        "manufacturer" := manufacturer, "specifications" := specification,
        "description" := description]
  }

  /** The row an insert creates, with an explicit count of 1. */
  function NewRow(p: ParsedReply, hash: string, image: ImageFile): ImageData
  {
    ImageData(p.objectName, p.color, 1, image, p.dimensions, hash, p.manufacturer,
              p.specification, p.description)
  }

  /** A stored row after a repeat upload: counted once more, with the new description and image. */
  function Bumped(e: ImageData, description: string, image: ImageFile): ImageData
  {
    e.(count := e.count + 1, description := description, image := image)
  }

  /** The table after one upsert, and the dict the upsert returns. */
  function Upserted(rows: seq<ImageData>, p: ParsedReply, hash: string, image: ImageFile)
    : (seq<ImageData>, map<string, string>)
  {
    match FirstMatch(rows, hash)
    case Some(i) =>
      var e := Bumped(rows[i], p.description, image);
      (rows[i := e], Summary(e.objectName, e.color, e.dimensions, e.manufacturer,
                             e.specification, e.description))
    case None =>
      (rows + [NewRow(p, hash, image)],
       Summary(p.objectName, p.color, p.dimensions, p.manufacturer, p.specification,
               p.description))
  }

  /** The insert passes the same count as the declared default. */
  lemma NewRowIsDefault(p: ParsedReply, hash: string, image: ImageFile)
    ensures NewRow(p, hash, image) ==
      Create(p.objectName, p.color, image, p.dimensions, hash, p.manufacturer, p.specification,
             p.description)
  {
  }

  /**
   * A hit on row `i`, the first row with the hash: that row's count grows by
   * one, its description and image are replaced, its other columns stay;
   * every other row and the number of rows stay; the dict shows the stored
   * columns with the new description.
   */
  lemma UpsertHit(rows: seq<ImageData>, p: ParsedReply, hash: string, image: ImageFile, i: nat)
    requires i < |rows| && rows[i].imageHash == hash
    requires forall j :: 0 <= j < i ==> rows[j].imageHash != hash
    ensures var (after, shown) := Upserted(rows, p, hash, image);
      |after| == |rows| &&
      (forall j :: 0 <= j < |rows| && j != i ==> after[j] == rows[j]) &&
      after[i].count == rows[i].count + 1 &&
      after[i].description == p.description && after[i].image == image &&
      after[i].objectName == rows[i].objectName && after[i].color == rows[i].color &&
      after[i].dimensions == rows[i].dimensions && after[i].imageHash == rows[i].imageHash &&
      after[i].manufacturer == rows[i].manufacturer &&
      after[i].specification == rows[i].specification &&
      shown == Summary(rows[i].objectName, rows[i].color, rows[i].dimensions,
                       rows[i].manufacturer, rows[i].specification, p.description)
  {
  }

  /**
   * A miss: exactly one row is appended, with count 1, the parsed columns and
   * the hash; the existing rows stay; the dict shows the parsed columns.
   */
  lemma UpsertMiss(rows: seq<ImageData>, p: ParsedReply, hash: string, image: ImageFile)
    requires forall j :: 0 <= j < |rows| ==> rows[j].imageHash != hash
    ensures var (after, shown) := Upserted(rows, p, hash, image);
      |after| == |rows| + 1 && after[..|rows|] == rows &&
      after[|rows|].count == 1 && after[|rows|].imageHash == hash &&
      after[|rows|].image == image &&
      after[|rows|].objectName == p.objectName && after[|rows|].color == p.color &&
      after[|rows|].dimensions == p.dimensions &&
      after[|rows|].manufacturer == p.manufacturer &&
      after[|rows|].specification == p.specification &&
      after[|rows|].description == p.description &&
      shown == Summary(p.objectName, p.color, p.dimensions, p.manufacturer, p.specification,
                       p.description)
  {
    var after := Upserted(rows, p, hash, image).0;
    assert after == rows + [NewRow(p, hash, image)];
    assert after[..|rows|] == rows;
  }

  /** Every row has been counted at least once. */
  predicate CountsPositive(rows: seq<ImageData>)
  {
    forall j :: 0 <= j < |rows| ==> rows[j].count >= 1
  }

  /** An upsert keeps every count positive: it creates rows with count 1 and only increments. */
  lemma UpsertKeepsCountsPositive(rows: seq<ImageData>, p: ParsedReply, hash: string,
                                  image: ImageFile)
    requires CountsPositive(rows)
    ensures CountsPositive(Upserted(rows, p, hash, image).0)
  {
  }

  /** No two rows share an image hash. */
  predicate HashesUnique(rows: seq<ImageData>)
  {
    forall j, k :: 0 <= j < k < |rows| ==> rows[j].imageHash != rows[k].imageHash
  }

  /**
   * Sequential upserts never create a second row for a hash, so a table that
   * starts without duplicates keeps none (duplicates need the concurrent
   * race, which is outside this model).
   */
  lemma UpsertKeepsHashesUnique(rows: seq<ImageData>, p: ParsedReply, hash: string,
                                image: ImageFile)
    requires HashesUnique(rows)
    ensures HashesUnique(Upserted(rows, p, hash, image).0)
  {
    var after := Upserted(rows, p, hash, image).0;
    match FirstMatch(rows, hash)
    case Some(i) =>
      assert forall j :: 0 <= j < |after| ==> after[j].imageHash == rows[j].imageHash;
    case None =>
      assert forall j :: 0 <= j < |rows| ==> after[j] == rows[j];
  }

  /** The sum of the counts: the number of uploads the table has recorded. */
  function TotalCount(rows: seq<ImageData>): int
  {
    if |rows| == 0 then 0 else TotalCount(rows[..|rows| - 1]) + rows[|rows| - 1].count
  }

  lemma {:induction false} TotalCountAppend(rows: seq<ImageData>, e: ImageData)
    ensures TotalCount(rows + [e]) == TotalCount(rows) + e.count
  {
    assert (rows + [e])[..|rows|] == rows;
  }

  lemma {:induction false} TotalCountUpdate(rows: seq<ImageData>, i: nat, e: ImageData)
    requires i < |rows|
    ensures TotalCount(rows[i := e]) == TotalCount(rows) - rows[i].count + e.count
    decreases |rows|
  {
    var n := |rows| - 1;
    if i < n {
      assert rows[i := e][..n] == rows[..n][i := e];
      TotalCountUpdate(rows[..n], i, e);
    } else {
      assert rows[i := e][..n] == rows[..n];
    }
  }

  /** Each upsert records exactly one more upload. */
  lemma UpsertCountsOneUpload(rows: seq<ImageData>, p: ParsedReply, hash: string,
                              image: ImageFile)
    ensures TotalCount(Upserted(rows, p, hash, image).0) == TotalCount(rows) + 1
  {
    match FirstMatch(rows, hash)
    case Some(i) =>
      TotalCountUpdate(rows, i, Bumped(rows[i], p.description, image));
    case None =>
      TotalCountAppend(rows, NewRow(p, hash, image));
  }

  /**
   * Uploading the same image twice, starting from a table that does not know
   * its hash, leaves exactly one new row for it, with count 2 and the second
   * upload's description and image.
   */
  lemma RepeatUpload(rows: seq<ImageData>, first: ParsedReply, second: ParsedReply, hash: string,
                     image1: ImageFile, image2: ImageFile)
    requires forall j :: 0 <= j < |rows| ==> rows[j].imageHash != hash
    ensures var after := Upserted(Upserted(rows, first, hash, image1).0, second, hash, image2).0;
      |after| == |rows| + 1 && after[..|rows|] == rows &&
      after[|rows|] == NewRow(first, hash, image1).(count := 2, description := second.description,
                                                    image := image2)
  {
    UpsertMiss(rows, first, hash, image1);
    var mid := Upserted(rows, first, hash, image1).0;
    UpsertHit(mid, second, hash, image2, |rows|);
    var after := Upserted(mid, second, hash, image2).0;
    assert after[..|rows|] == rows by {
      forall j | 0 <= j < |rows| ensures after[j] == rows[j] {
        assert mid[j] == mid[..|rows|][j];
      }
    }
  }

  /**
   * Uploading two images with different hashes, neither known to the table,
   * appends two rows, each with count 1.
   */
  lemma DistinctUploads(rows: seq<ImageData>, p1: ParsedReply, p2: ParsedReply,
                        hash1: string, hash2: string, image1: ImageFile, image2: ImageFile)
    requires hash1 != hash2
    requires forall j :: 0 <= j < |rows| ==> rows[j].imageHash != hash1 && rows[j].imageHash != hash2
    ensures var after := Upserted(Upserted(rows, p1, hash1, image1).0, p2, hash2, image2).0;
      after == rows + [NewRow(p1, hash1, image1), NewRow(p2, hash2, image2)] &&
      after[|rows|].count == 1 && after[|rows| + 1].count == 1
  {
    UpsertMiss(rows, p1, hash1, image1);
    var mid := Upserted(rows, p1, hash1, image1).0;
    assert mid == rows + [NewRow(p1, hash1, image1)];
    UpsertMiss(mid, p2, hash2, image2);
  }

  /** The parsed columns and the hash fit the declared widths. */
  predicate ReplyWithinCaps(p: ParsedReply, hash: string)
  {
    |p.objectName| <= ObjectNameMax && |p.color| <= ColorMax &&
    |p.dimensions| <= DimensionsMax && |hash| <= ImageHashMax &&
    |p.manufacturer| <= ManufacturerMax && |p.specification| <= SpecificationMax &&
    |p.description| <= DescriptionMax
  }

  /** An upsert whose inputs fit the declared widths keeps every row within them. */
  lemma UpsertKeepsCaps(rows: seq<ImageData>, p: ParsedReply, hash: string, image: ImageFile)
    requires forall j :: 0 <= j < |rows| ==> WithinCaps(rows[j])
    requires ReplyWithinCaps(p, hash)
    ensures var after := Upserted(rows, p, hash, image).0;
      forall j :: 0 <= j < |after| ==> WithinCaps(after[j])
  {
  }

  /** The `ImageData` table. */
  class ImageTable {
    var rows: seq<ImageData>

    /**
     * Every row has been counted at least once: an invariant the constructor
     * establishes and every upsert preserves.
     */
    ghost predicate Valid()
      reads this
    {
      CountsPositive(rows)
    }

    constructor ()
      ensures Valid() && rows == []
    {
      rows := [];
    }

    /**
     * The upsert-by-hash: on a hit the first row with the hash is bumped in
     * place, on a miss a row is inserted; returns the dict for display.
     */
    method Upsert(p: ParsedReply, hash: string, image: ImageFile) returns (shown: map<string, string>)
      requires Valid()
      modifies this
      ensures Valid()
      ensures (rows, shown) == Upserted(old(rows), p, hash, image)
      ensures TotalCount(rows) == TotalCount(old(rows)) + 1
      ensures old(HashesUnique(rows)) ==> HashesUnique(rows)
    {
      ghost var target := Upserted(rows, p, hash, image);
      UpsertKeepsCountsPositive(rows, p, hash, image);
      UpsertCountsOneUpload(rows, p, hash, image);
      if HashesUnique(rows) {
        UpsertKeepsHashesUnique(rows, p, hash, image);
      }
      var found := FirstMatch(rows, hash);
      match found {
        case Some(i) =>
          var entry := rows[i];
          entry := entry.(count := entry.count + 1);
          entry := entry.(description := p.description);
          entry := entry.(image := image);
          assert entry == Bumped(rows[i], p.description, image);
          rows := rows[i := entry];
          shown := Summary(entry.objectName, entry.color, entry.dimensions, entry.manufacturer,
                           entry.specification, entry.description);
        case None =>
          rows := rows + [NewRow(p, hash, image)];
          shown := Summary(p.objectName, p.color, p.dimensions, p.manufacturer,
                           p.specification, p.description);
      }
      assert (rows, shown) == target;
    }

    /**
     * `process_image` once the model's reply and the image hash are known:
     * parse the reply, then upsert. A reply the parser rejects raises before
     * the table is touched.
     */
    method Process(reply: string, transcription: Option<string>, hash: string, image: ImageFile)
      returns (r: Result<map<string, string>, ParseError>)
      requires Valid()
      modifies this
      ensures Valid()
      ensures Parse(reply, transcription).Failure? ==>
        r == Failure(Parse(reply, transcription).error) && rows == old(rows)
      ensures Parse(reply, transcription).Success? ==>
        r.Success? && (rows, r.value) == Upserted(old(rows), Parse(reply, transcription).value,
                                                 hash, image)
    {
      var parsed := Parse(reply, transcription);
      if parsed.Failure? {
        return Failure(parsed.error);
      }
      var shown := Upsert(parsed.value, hash, image);
      r := Success(shown);
    }
  }
}
