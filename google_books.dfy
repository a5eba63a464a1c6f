/** The part of a Google Books volume the controllers read, and
    `getIsbnFromVolumeInfo` of `src/utils/googleBooksAPI.js`, which picks a
    catalog ISBN out of a volume's industry identifiers. */
module GoogleBooks {
  import opened Wrappers
  import opened Text
  import opened Isbn
  import opened Catalog

  /** One `industryIdentifiers` element: `type` ("ISBN_10", "ISBN_13", ...)
      and `identifier`, which may be missing. */
  datatype IndustryIdentifier = IndustryIdentifier(kind: string, identifier: Option<string>)

  /** A volume's `volumeInfo`; every field may be missing. */
  datatype VolumeInfo = VolumeInfo(
    title: Option<string>,
    authors: Option<seq<string>>,
    publisher: Option<string>,
    publishedDate: Option<string>,
    description: Option<string>,
    pageCount: Option<int>,
    printType: Option<string>,
    imageLinks: Option<ImageLinks>,
    language: Option<string>,
    categories: Option<seq<string>>,
    averageRating: Option<real>,
    ratingsCount: Option<int>,
    industryIdentifiers: Option<seq<IndustryIdentifier>>)

  datatype SaleInfo = SaleInfo(retailPrice: Option<Price>)

  /** One element of the provider's `items`. */
  datatype Volume = Volume(id: Option<string>, volumeInfo: VolumeInfo, saleInfo: Option<SaleInfo>)

  /** Index of the first identifier of type `kind`, or `|ids|` when there is none
      (`Array.prototype.find`). */
  function FirstOfKind(ids: seq<IndustryIdentifier>, kind: string): (i: nat)
    ensures i <= |ids|
    ensures i < |ids| ==> ids[i].kind == kind
    ensures forall j :: 0 <= j < i ==> ids[j].kind != kind
  {
    if ids == [] then 0
    else if ids[0].kind == kind then 0
    else FirstOfKind(ids[1..], kind) + 1
  }

  /** `ids.find(id => id.type === kind)?.identifier`: missing when no identifier
      has that type or the first one has no value. */
  function IdentifierOf(ids: seq<IndustryIdentifier>, kind: string): (r: Option<string>)
    ensures (forall j :: 0 <= j < |ids| ==> ids[j].kind != kind) ==> r.None?
    ensures forall i :: (0 <= i < |ids| && ids[i].kind == kind &&
      forall j :: 0 <= j < i ==> ids[j].kind != kind) ==> r == ids[i].identifier
  {
    var i := FirstOfKind(ids, kind);
    if i < |ids| then ids[i].identifier else None
  }

  /** `getIsbnFromVolumeInfo`: the first ISBN_10 identifier verbatim when it is
      a non-empty string, otherwise `isbn13to10` of the first ISBN_13 identifier. */
  function IsbnFromVolumeInfo(info: VolumeInfo): (r: Option<string>)
    ensures info.industryIdentifiers.None? ==> r.None?
    ensures r.Some? ==> r.value != ""
    ensures (r.Some? && info.industryIdentifiers.Some? &&
      !Truthy(IdentifierOf(info.industryIdentifiers.value, "ISBN_10"))) ==> |r.value| == 10
  {
    if info.industryIdentifiers.None? then None
    else
      var ids := info.industryIdentifiers.value;
      var isbn10 := IdentifierOf(ids, "ISBN_10");
      if Truthy(isbn10) then isbn10
      else Isbn10Of(IdentifierOf(ids, "ISBN_13"))
  }

  /** The first ISBN_10 identifier, when it is a non-empty string, is returned
      as it is (neither cleaned nor validated), whatever ISBN_13 identifiers
      the volume has. */
  lemma Isbn10TakesPrecedence(info: VolumeInfo, i: nat, x: string)
    requires info.industryIdentifiers.Some?
    requires i < |info.industryIdentifiers.value|
    requires info.industryIdentifiers.value[i] == IndustryIdentifier("ISBN_10", Some(x))
    requires forall j :: 0 <= j < i ==> info.industryIdentifiers.value[j].kind != "ISBN_10"
    requires x != ""
    ensures IsbnFromVolumeInfo(info) == Some(x)
  {
  }

  /** When the first ISBN_10 identifier is missing or empty, or there is no
      ISBN_10 entry at all, the result is `isbn13to10` of the first ISBN_13
      identifier, and is null when there is none. */
  lemma Isbn13Fallback(info: VolumeInfo)
    requires info.industryIdentifiers.Some?
    requires !Truthy(IdentifierOf(info.industryIdentifiers.value, "ISBN_10"))
    ensures IsbnFromVolumeInfo(info) == Isbn10Of(IdentifierOf(info.industryIdentifiers.value, "ISBN_13"))
    ensures (forall j :: 0 <= j < |info.industryIdentifiers.value| ==>
      info.industryIdentifiers.value[j].kind != "ISBN_13") ==> IsbnFromVolumeInfo(info).None?
  {
  }

  /** A volume whose only ISBN is a 979-prefixed ISBN-13 yields null, because
      `isbn13to10` refuses that prefix. */
  lemma {:induction false} Isbn979YieldsNull(info: VolumeInfo, i: nat, x: string)
    requires info.industryIdentifiers.Some?
    requires forall j :: 0 <= j < |info.industryIdentifiers.value| ==>
      info.industryIdentifiers.value[j].kind != "ISBN_10"
    requires i < |info.industryIdentifiers.value|
    requires info.industryIdentifiers.value[i] == IndustryIdentifier("ISBN_13", Some(x))
    requires forall j :: 0 <= j < i ==> info.industryIdentifiers.value[j].kind != "ISBN_13"
    requires |Clean(x)| == 13 && Clean(x)[..3] == "979"
    ensures IsbnFromVolumeInfo(info).None?
  {
    Isbn13Fallback(info);
    assert Clean(x)[..3] != Bookland by {
      assert Clean(x)[2] == '9' && Bookland[2] == '8';
    }
    Isbn10OfRejects(x);
  }
}
