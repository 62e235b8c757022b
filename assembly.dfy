/**
 * Assembling the records of the whole class list (`fetchAllRecords` in
 * content.js): every row is extracted, its image is fetched and encoded, a
 * row that throws becomes `null`, and the `null`s are filtered out.  The
 * network and the `FileReader` are abstracted into the outcome of the image
 * fetch for each row.
 */
module Assembly {
  import opened Wrappers
  import opened ClassList

  /**
   * How `fetchAndEncodeImage` ends for a row: with a data URL, with `null`
   * when the fetch or reading the response body fails (caught inside it),
   * or with the `FileReader` rejecting, which that `try` does not catch
   * because the promise is returned without being awaited.
   */
  datatype ImageOutcome = Encoded(dataUrl: string) | FetchFailed | ReadFailed

  /** A table row together with the outcome of fetching its image. */
  datatype RowInput = RowInput(row: Row, image: ImageOutcome)

  const ImageBlobKey := "imageBlob"

  /** The value `fetchAndEncodeImage` resolves to, when it resolves. */
  function ImageBlob(outcome: ImageOutcome): Value
    requires !outcome.ReadFailed?
  {
    if outcome.Encoded? then Str(outcome.dataUrl) else Null
  }

  /**
   * The callback mapped over the rows: the extracted record with `imageBlob`
   * added, or `null` when extraction throws or the image read rejects.
   */
  function ProcessRow(input: RowInput): (r: Option<Record>)
    ensures r.None? <==> RowRecord(input.row).Err? || input.image.ReadFailed?
    ensures r.Some? ==>
              var d := RowRecord(input.row).value;
              r.value.Keys == d.Keys + {ImageBlobKey}
              && r.value[ImageBlobKey] == ImageBlob(input.image)
              && forall k :: k in d && k != ImageBlobKey ==> r.value[k] == d[k]
  {
    match RowRecord(input.row)
    case Err(_) => None
    case Ok(data) =>
      if input.image.ReadFailed? then None
      else Some(data[ImageBlobKey := ImageBlob(input.image)])
  }

  /** `filter(data => data !== null)`: the present values, in order. */
  function Present<T>(xs: seq<Option<T>>): (r: seq<T>)
    ensures |r| <= |xs|
    decreases |xs|
  {
    if xs == [] then []
    else
      var init := Present(xs[..|xs| - 1]);
      match xs[|xs| - 1]
      case None => init
      case Some(x) => init + [x]
  }

  /** The positions of the present values, in order. */
  function KeptIndices<T>(xs: seq<Option<T>>): seq<nat>
    decreases |xs|
  {
    if xs == [] then []
    else
      var init := KeptIndices(xs[..|xs| - 1]);
      if xs[|xs| - 1].Some? then init + [|xs| - 1] else init
  }

  /**
   * `Present(xs)` is the subsequence of the present values: its `a`-th element
   * is taken from position `KeptIndices(xs)[a]`, those positions increase
   * strictly, and they are exactly the positions holding a value.
   */
  lemma {:induction false} PresentIsSubsequence<T>(xs: seq<Option<T>>)
    ensures |KeptIndices(xs)| == |Present(xs)|
    ensures forall a :: 0 <= a < |KeptIndices(xs)| ==>
              KeptIndices(xs)[a] < |xs| && xs[KeptIndices(xs)[a]] == Some(Present(xs)[a])
    ensures forall a, b :: 0 <= a < b < |KeptIndices(xs)| ==> KeptIndices(xs)[a] < KeptIndices(xs)[b]
    ensures forall n :: 0 <= n < |xs| ==> (n in KeptIndices(xs) <==> xs[n].Some?)
    decreases |xs|
  {
    if xs != [] {
      var init := xs[..|xs| - 1];
      PresentIsSubsequence(init);
      assert forall n :: 0 <= n < |init| ==> init[n] == xs[n];
    }
  }

  /**
   * `fetchAllRecords`: the records of the rows that did not end in `null`, in
   * row order.  There are no more records than rows, and each is the
   * processed record of some row.
   */
  function FetchAllRecords(inputs: seq<RowInput>): (r: seq<Record>)
    ensures |r| <= |inputs|
    ensures forall a :: 0 <= a < |r| ==> exists n :: 0 <= n < |inputs| && ProcessRow(inputs[n]) == Some(r[a])
  {
    var results := seq(|inputs|, n requires 0 <= n < |inputs| => ProcessRow(inputs[n]));
    var r := Present(results);
    assert forall a :: 0 <= a < |r| ==> exists n :: 0 <= n < |inputs| && results[n] == Some(r[a]) by {
      PresentIsSubsequence(results);
      forall a | 0 <= a < |r|
        ensures exists n :: 0 <= n < |inputs| && results[n] == Some(r[a])
      {
        var n := KeptIndices(results)[a];
        assert results[n] == Some(r[a]);
      }
    }
    r
  }

  /**
   * The records come out in row order: the `a`-th record is the processed
   * row at `KeptIndices(...)[a]`, those rows increase, and a row is kept
   * exactly when it neither throws nor has its image read rejected.
   */
  lemma FetchAllRecordsInOrder(inputs: seq<RowInput>)
    ensures var results := seq(|inputs|, n requires 0 <= n < |inputs| => ProcessRow(inputs[n]));
            var kept := KeptIndices(results);
            var r := FetchAllRecords(inputs);
            |kept| == |r|
            && (forall a :: 0 <= a < |kept| ==> kept[a] < |inputs| && Some(r[a]) == ProcessRow(inputs[kept[a]]))
            && (forall a, b :: 0 <= a < b < |kept| ==> kept[a] < kept[b])
            && (forall n :: 0 <= n < |inputs| ==>
                  (n in kept <==> RowRecord(inputs[n].row).Ok? && !inputs[n].image.ReadFailed?))
  {
    var results := seq(|inputs|, n requires 0 <= n < |inputs| => ProcessRow(inputs[n]));
    PresentIsSubsequence(results);
  }

  /** When no row fails, every row yields a record. */
  lemma NoFailureKeepsEveryRow(inputs: seq<RowInput>)
    requires forall n :: 0 <= n < |inputs| ==> RowRecord(inputs[n].row).Ok? && !inputs[n].image.ReadFailed?
    ensures |FetchAllRecords(inputs)| == |inputs|
  {
    var results := seq(|inputs|, n requires 0 <= n < |inputs| => ProcessRow(inputs[n]));
    FetchAllRecordsInOrder(inputs);
    AllKept(results);
  }

  /** When every value is present, every position is kept. */
  lemma {:induction false} AllKept<T>(xs: seq<Option<T>>)
    requires forall n :: 0 <= n < |xs| ==> xs[n].Some?
    ensures |KeptIndices(xs)| == |xs|
    decreases |xs|
  {
    if xs != [] {
      AllKept(xs[..|xs| - 1]);
    }
  }
}
