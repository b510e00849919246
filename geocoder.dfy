/** The dashboard's geocoder: a fixed table from upper-case city name to a
    (latitude, longitude) pair, and a lookup that upper-cases its argument
    and answers (None, None) for a city the table does not know. The
    coordinates are only stored and handed on, so they are plain `real`
    constants here. */
module Geocoder {
  import opened Text

  datatype Option<T> = None | Some(value: T)

  /** `COORDENADAS_FIXAS`: seventeen cities of the region, keyed by their
      upper-case names with diacritics kept. */
  const FixedCoordinates: map<string, (real, real)> := map[
    "ÁGUAS DE SANTA BÁRBARA" := (-22.7666740, -49.2141300),
    "ANHEMBI" := (-22.789859, -48.140030),
    "AVAÍ" := (-22.159374, -49.369551),
    "BAURU" := (-22.262420, -49.180159),
    "BOTUCATU" := (-22.835740, -48.231794),
    "GUARANTÃ" := (-21.906337, -49.586856),
    "ITATINGA" := (-23.038354, -48.668439),
    "LENCOIS PAULISTA" := (-22.573064, -48.785689),
    "PAULISTÂNIA" := (-22.582313, -49.390672),
    "PRESIDENTE ALVES" := (-22.084878, -49.422422),
    "REGINÓPOLIS" := (-21.926986, -49.221164),
    "SÃO PEDRO" := (-22.585806, -47.916186),
    "LINS" := (-21.682648, -49.797577),
    "GETULINA" := (-21.786340, -49.940519),
    "GÁLIA" := (-22.304004, -49.565130),
    "SANTA CRUZ DO RIO PARDO" := (-22.805438, -49.475661),
    "PONGAÍ" := (-21.7948626, -49.3606179)
  ]

  /** `obter_coordenadas(cidade)`: the table's pair for `Upper(city)`, or
      (None, None). It never fails, and the two halves are always both
      present or both absent. */
  function GetCoordinates(city: string): (r: (Option<real>, Option<real>))
    ensures r.0.Some? <==> Upper(city) in FixedCoordinates
    ensures r.1.Some? <==> r.0.Some?
    ensures r.0.Some? ==> (r.0.value, r.1.value) == FixedCoordinates[Upper(city)]
  {
    var key := Upper(city);
    if key in FixedCoordinates then
      (Some(FixedCoordinates[key].0), Some(FixedCoordinates[key].1))
    else
      (None, None)
  }

  /** The key set of the table, spelled out. */
  lemma KeyIsListed(k: string)
    requires k in FixedCoordinates
    ensures
         k == "ÁGUAS DE SANTA BÁRBARA"
      || k == "ANHEMBI"
      || k == "AVAÍ"
      || k == "BAURU"
      || k == "BOTUCATU"
      || k == "GUARANTÃ"
      || k == "ITATINGA"
      || k == "LENCOIS PAULISTA"
      || k == "PAULISTÂNIA"
      || k == "PRESIDENTE ALVES"
      || k == "REGINÓPOLIS"
      || k == "SÃO PEDRO"
      || k == "LINS"
      || k == "GETULINA"
      || k == "GÁLIA"
      || k == "SANTA CRUZ DO RIO PARDO"
      || k == "PONGAÍ"
  {
  }

  /** None of the listed names holds a lower-case ASCII letter. */
  lemma ListedNamesHaveNoLowerCase()
    ensures
         HasNoLowerCase("ÁGUAS DE SANTA BÁRBARA")
      && HasNoLowerCase("ANHEMBI")
      && HasNoLowerCase("AVAÍ")
      && HasNoLowerCase("BAURU")
      && HasNoLowerCase("BOTUCATU")
      && HasNoLowerCase("GUARANTÃ")
      && HasNoLowerCase("ITATINGA")
      && HasNoLowerCase("LENCOIS PAULISTA")
      && HasNoLowerCase("PAULISTÂNIA")
      && HasNoLowerCase("PRESIDENTE ALVES")
      && HasNoLowerCase("REGINÓPOLIS")
      && HasNoLowerCase("SÃO PEDRO")
      && HasNoLowerCase("LINS")
      && HasNoLowerCase("GETULINA")
      && HasNoLowerCase("GÁLIA")
      && HasNoLowerCase("SANTA CRUZ DO RIO PARDO")
      && HasNoLowerCase("PONGAÍ")
  {
  }

  /** No key of the table holds a lower-case ASCII letter. */
  lemma KeysHaveNoLowerCase(k: string)
    requires k in FixedCoordinates
    ensures HasNoLowerCase(k)
  {
    KeyIsListed(k);
    ListedNamesHaveNoLowerCase();
  }

  /** Every key of the table is already upper case, so a key looks itself up. */
  lemma KeysAreUpperCase(k: string)
    requires k in FixedCoordinates
    ensures Upper(k) == k
  {
    KeysHaveNoLowerCase(k);
    UpperFixedPoints(k);
  }

  /** Looking up a key of the table gives that key's own pair. */
  lemma GetCoordinatesOfKey(city: string)
    requires city in FixedCoordinates
    ensures GetCoordinates(city) == (Some(FixedCoordinates[city].0), Some(FixedCoordinates[city].1))
  {
    KeysAreUpperCase(city);
  }

  /** The lookup ignores the case of ASCII letters: a name and its
      upper-cased form give the same answer. */
  lemma GetCoordinatesIgnoresCase(city: string)
    ensures GetCoordinates(city) == GetCoordinates(Upper(city))
  {
    UpperIdempotent(city);
  }

  /** The entry for Bauru. */
  lemma BauruCoordinates()
    ensures FixedCoordinates["BAURU"] == (-22.262420, -49.180159)
  {
  }

  /** Marília is not in the table: the lookup answers (None, None). */
  lemma MariliaNotListed()
    ensures "MARÍLIA" !in FixedCoordinates
    ensures GetCoordinates("MARÍLIA") == (None, None)
  {
    if "MARÍLIA" in FixedCoordinates {
      KeyIsListed("MARÍLIA");
    }
    assert HasNoLowerCase("MARÍLIA");
    UpperFixedPoints("MARÍLIA");
  }
}
