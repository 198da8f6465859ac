/**
 * The fixed instrument universe: the eleven US sector ETFs of the GICS
 * classification, in their declared order, each with its display name.
 */
module Universe {

  datatype Instrument = Instrument(code: string, name: string)

  const SectorEtfs: seq<Instrument> := [
    Instrument("XLC", "通信サービス"),
    Instrument("XLY", "一般消費財"),
    Instrument("XLP", "生活必需品"),
    Instrument("XLE", "エネルギー"),
    Instrument("XLF", "金融"),
    Instrument("XLV", "ヘルスケア"),
    Instrument("XLI", "資本財"),
    Instrument("XLB", "素材"),
    Instrument("XLRE", "不動産"),
    Instrument("XLK", "テクノロジー"),
    Instrument("XLU", "公益事業")
  ]

  /** The sort key given to a code outside the universe. */
  const UnknownKey: nat := 99

  predicate InUniverse(code: string)
  {
    exists k :: 0 <= k < |SectorEtfs| && SectorEtfs[k].code == code
  }

  function IndexFrom(code: string, k: nat): (r: nat)
    requires k <= |SectorEtfs|
    ensures k <= r <= |SectorEtfs|
    ensures r < |SectorEtfs| ==> SectorEtfs[r].code == code
    ensures forall j :: k <= j < r ==> SectorEtfs[j].code != code
    decreases |SectorEtfs| - k
  {
    if k == |SectorEtfs| then k
    else if SectorEtfs[k].code == code then k
    else IndexFrom(code, k + 1)
  }

  /**
   * The panel's sort key of a code: its position among the universe's codes
   * (the first one, as `list.index` finds it), or 99 for a code outside it.
   */
  function SortKey(code: string): (r: nat)
    ensures InUniverse(code) ==> r < |SectorEtfs| && SectorEtfs[r].code == code
    ensures InUniverse(code) ==> forall j :: 0 <= j < r ==> SectorEtfs[j].code != code
    ensures !InUniverse(code) <==> r == UnknownKey
  {
    var k := IndexFrom(code, 0);
    if k < |SectorEtfs| then k else UnknownKey
  }

  /** Every listed code sorts before every code outside the universe. */
  lemma KnownBeforeUnknown(known: string, unknown: string)
    requires InUniverse(known) && !InUniverse(unknown)
    ensures SortKey(known) < SortKey(unknown)
  {
  }

  /** The declared codes are distinct. */
  lemma CodesDistinct()
    ensures forall i, j :: 0 <= i < j < |SectorEtfs| ==> SectorEtfs[i].code != SectorEtfs[j].code
  {
  }

  /** Each listed code's key is its own position in the universe. */
  lemma SortKeyOfListed(k: nat)
    requires k < |SectorEtfs|
    ensures SortKey(SectorEtfs[k].code) == k
  {
    CodesDistinct();
    assert InUniverse(SectorEtfs[k].code);
  }
}
