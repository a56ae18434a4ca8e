/** The static table of parties and the search that picks a party's colour scale. */
module Parties {
  import opened Options
  import opened Colours

  /** A party: display name, slug, brand colour and the six stops of its colour scale. */
  datatype Party = Party(name: string, slug: string, colour: Colour, scale: seq<Colour>)

  const Catalogue: seq<Party> := [
    Party("Conservatives", "conservatives", "#0087DC",
      ["#FFFFFF", "#F8E7C6", "#CEF190", "#9BED76", "#2DE3AE", "#0087DC"]),
    Party("Green Party", "green-party", "#75A92D",
      ["#FFFFFF", "#EDD4CA", "#DCC09B", "#CBBE71", "#ABBA4C", "#75A92D"]),
    Party("Labour", "labour", "#D50000",
      ["#FFFFFF", "#fee5d9", "#fcbba1", "#fc9272", "#fb6a4a", "#D50000"]),
    Party("Liberal Democrats", "liberal-democrats", "#FE8300",
      ["#FFFFFF", "#B4B5FE", "#87EFFE", "#5AFE83", "#ADFE2D", "#FE8300"]),
    Party("Plaid Cymru", "plaid-cymru", "#3E8424",
      ["#FFFFFF", "#E6D0C4", "#CDBB91", "#B2B566", "#799C41", "#3E8424"]),
    Party("Scottish National Party", "scottish-national-party", "#EBC31C",
      ["#FFFFFF", "#FBD5CE", "#F7BC9F", "#F3B072", "#EFB346", "#EBC31C"]),
    Party("UK Independence Party", "ukip", "#800080",
      ["#FFFFFF", "#E5E5B7", "#7ACC7A", "#47B2B2", "#316BA6", "#800080"])
  ]

  /** `k` is the last position of `parties` whose slug is `slug`. */
  predicate IsLastMatch(parties: seq<Party>, slug: string, k: int) {
    && 0 <= k < |parties|
    && parties[k].slug == slug
    && forall j :: k < j < |parties| ==> parties[j].slug != slug
  }

  predicate UniqueSlugs(parties: seq<Party>) {
    forall i, j :: 0 <= i < j < |parties| ==> parties[i].slug != parties[j].slug
  }

  /** The shape every catalogue entry has. */
  predicate WellFormedParty(p: Party) {
    && |p.scale| == 6
    && p.scale[0] == "#FFFFFF"
    && p.scale[5] == p.colour
    && NoDataColour !in p.scale
    && Distinct(p.scale)
  }

  /**
   * The colour scale of the party with slug `slug`. Every party is inspected
   * (there is no early exit), so with repeated slugs the last one wins; an
   * unknown slug gives `None`.
   */
  method FindScale(parties: seq<Party>, slug: string) returns (range: Option<seq<Colour>>)
    ensures range.None? <==> forall k :: 0 <= k < |parties| ==> parties[k].slug != slug
    ensures range.Some? ==> exists k :: IsLastMatch(parties, slug, k) && range.value == parties[k].scale
  {
    range := None;
    for i := 0 to |parties|
      invariant range.None? <==> forall k :: 0 <= k < i ==> parties[k].slug != slug
      invariant range.Some? ==> exists k :: IsLastMatch(parties[..i], slug, k) && range.value == parties[k].scale
    {
      if slug == parties[i].slug {
        range := Some(parties[i].scale);
        assert IsLastMatch(parties[..i + 1], slug, i);
      } else if range.Some? {
        var k :| IsLastMatch(parties[..i], slug, k) && range.value == parties[k].scale;
        assert IsLastMatch(parties[..i + 1], slug, k);
      }
    }
    assert parties[..|parties|] == parties;
  }

  /** With unique slugs the last match is the only one. */
  lemma LastMatchIsOnlyMatch(parties: seq<Party>, slug: string, k: int, j: int)
    requires UniqueSlugs(parties) && IsLastMatch(parties, slug, k)
    requires 0 <= j < |parties| && parties[j].slug == slug
    ensures j == k
  {
  }

  /** The catalogue's slugs are unique and every entry is well formed. */
  lemma CatalogueFacts()
    ensures |Catalogue| == 7
    ensures UniqueSlugs(Catalogue)
    ensures forall k :: 0 <= k < |Catalogue| ==> WellFormedParty(Catalogue[k])
  {
  }
}
