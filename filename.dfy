/**
 * The name of the downloaded file (`generateFilename` in content.js): the
 * distinct `Registered Section` values of the records, in the order they
 * first occur, joined by `_` between `penn_class_list_data` and `.json`.
 */
module Filename {
  import opened JsString
  import opened ClassList

  const BaseName := "penn_class_list_data"
  const Extension := ".json"
  const DefaultFilename := BaseName + Extension
  const SectionKey := "Registered Section"

  /** How `Array.prototype.join` writes one element: `undefined` and `null` as nothing. */
  function JoinString(v: Value): string {
    match v
    case Str(s) => s
    case Bool(b) => if b then "true" else "false"
    case List(items) => Join(items, ",")
    case Undefined => ""
    case Null => ""
  }

  /** The position of the first occurrence of `x` in `xs`. */
  function FirstIndex<T(==)>(xs: seq<T>, x: T): (n: nat)
    requires x in xs
    ensures n < |xs| && xs[n] == x && forall k :: 0 <= k < n ==> xs[k] != x
  {
    if xs[0] == x then 0 else 1 + FirstIndex(xs[1..], x)
  }

  /**
   * `Array.from(new Set(xs))`: each value once, in the order of its first
   * occurrence.
   */
  function Dedup<T(==,!new)>(xs: seq<T>): (r: seq<T>)
    ensures forall x :: x in r <==> x in xs
    ensures forall i, j :: 0 <= i < j < |r| ==> r[i] != r[j]
    decreases |xs|
  {
    if xs == [] then []
    else
      var init := xs[..|xs| - 1];
      var last := xs[|xs| - 1];
      assert xs == init + [last];
      if last in Dedup(init) then Dedup(init) else Dedup(init) + [last]
  }

  /** `Dedup` keeps the values in the order in which they first occur. */
  lemma {:induction false} DedupFirstOccurrenceOrder<T(!new)>(xs: seq<T>)
    ensures forall i, j :: 0 <= i < j < |Dedup(xs)| ==>
              FirstIndex(xs, Dedup(xs)[i]) < FirstIndex(xs, Dedup(xs)[j])
    decreases |xs|
  {
    if xs != [] {
      var init := xs[..|xs| - 1];
      var last := xs[|xs| - 1];
      DedupFirstOccurrenceOrder(init);
      var r := Dedup(xs);
      forall x | x in init
        ensures FirstIndex(xs, x) == FirstIndex(init, x)
      {
        FirstIndexOfPrefix(init, xs, x);
      }
      if last !in init {
        assert FirstIndex(xs, last) == |xs| - 1;
        forall i | 0 <= i < |r| - 1
          ensures FirstIndex(xs, r[i]) < FirstIndex(xs, r[|r| - 1])
        {
          assert r[i] in Dedup(init);
        }
      }
    }
  }

  /** The first occurrence of a value of `prefix` is the same in any extension of it. */
  lemma {:induction false} FirstIndexOfPrefix<T>(prefix: seq<T>, xs: seq<T>, x: T)
    requires x in prefix && |prefix| <= |xs| && xs[..|prefix|] == prefix
    ensures FirstIndex(xs, x) == FirstIndex(prefix, x)
    decreases |prefix|
  {
    assert xs[0] == prefix[0];
    if prefix[0] != x {
      assert xs[1..][..|prefix| - 1] == prefix[1..];
      FirstIndexOfPrefix(prefix[1..], xs[1..], x);
    }
  }

  /** `data.map(entry => entry["Registered Section"])`. */
  function Sections(records: seq<Record>): (r: seq<Value>)
    ensures |r| == |records|
    ensures forall n :: 0 <= n < |r| ==> r[n] == Get(records[n], SectionKey)
  {
    seq(|records|, n requires 0 <= n < |records| => Get(records[n], SectionKey))
  }

  /** `Array.from(sections).join("_")`. */
  function SectionsJoined(records: seq<Record>): string {
    var unique := Dedup(Sections(records));
    Join(seq(|unique|, n requires 0 <= n < |unique| => JoinString(unique[n])), "_")
  }

  /**
   * `generateFilename`: `penn_class_list_data_<sections>.json`, or the
   * default name when the joined sections are empty.
   */
  function GenerateFilename(records: seq<Record>): (f: string)
    ensures |f| >= |DefaultFilename|
    ensures f[..|BaseName|] == BaseName
    ensures f[|f| - |Extension|..] == Extension
    ensures f == DefaultFilename <==> SectionsJoined(records) == ""
    ensures f != DefaultFilename ==> f[|BaseName|..|f| - |Extension|] == "_" + SectionsJoined(records)
  {
    var baseName := SectionsJoined(records);
    if baseName != "" then
      var f := BaseName + "_" + baseName + Extension;
      assert f[..|BaseName|] == BaseName;
      assert f[|f| - |Extension|..] == Extension;
      assert f[|BaseName|..|f| - |Extension|] == "_" + baseName;
      f
    else DefaultFilename
  }

  /** Joining with a non-empty separator gives the empty string exactly for no part or one empty part. */
  lemma JoinEmpty(parts: seq<string>, sep: string)
    requires sep != ""
    ensures Join(parts, sep) == "" <==> |parts| == 0 || (|parts| == 1 && parts[0] == "")
  {
    if |parts| > 1 {
      assert |Join(parts, sep)| >= |sep|;
    }
  }

  /** An empty class list gets the default name. */
  lemma EmptyListGetsDefault()
    ensures GenerateFilename([]) == DefaultFilename
  {
    assert Sections([]) == [];
  }

  /**
   * The default name is chosen exactly when there is no section value at all,
   * or the only distinct one is written as nothing (a missing section, say).
   */
  lemma DefaultNameIff(records: seq<Record>)
    ensures var unique := Dedup(Sections(records));
            GenerateFilename(records) == DefaultFilename <==>
              |unique| == 0 || (|unique| == 1 && JoinString(unique[0]) == "")
  {
    var unique := Dedup(Sections(records));
    JoinEmpty(seq(|unique| , n requires 0 <= n < |unique| => JoinString(unique[n])), "_");
  }

  /**
   * When every record has the same named section, the file is named after
   * that section alone.
   */
  lemma OneSection(records: seq<Record>, section: string)
    requires records != [] && section != ""
    requires forall n :: 0 <= n < |records| ==> Get(records[n], SectionKey) == Str(section)
    ensures GenerateFilename(records) == BaseName + "_" + section + Extension
  {
    var sections := Sections(records);
    var unique := Dedup(sections);
    assert sections[0] in unique;
    assert unique == [Str(section)] by {
      forall i | 0 <= i < |unique| ensures unique[i] == Str(section) {
        assert unique[i] in sections;
      }
      assert unique[0] == unique[|unique| - 1];
    }
  }
}
