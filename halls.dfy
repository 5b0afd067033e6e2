/** The halls page's logic: rows of the halls sheet become halls. */
module Halls {
  import opened Csv
  import opened Records

  /** A hall as the page uses it: three text fields, never missing. */
  datatype Hall = Hall(name: string, address: string, mapLink: string)

  /** The header spellings accepted for each field, in the order they are tried. */
  const NameKeys: seq<string> := ["Name", "Όνομα"]
  const AddressKeys: seq<string> := ["Address", "Διεύθυνση"]
  const MapLinkKeys: seq<string> := ["MapLink", "Map", "Χάρτης"]

  /** One row of the halls sheet as a hall: each field is the value under its first filled
      header spelling, or "". */
  function MapHall(r: Record): (h: Hall)
    ensures IsFirstFilled(r, NameKeys, h.name) && IsFirstFilled(r, AddressKeys, h.address)
    ensures IsFirstFilled(r, MapLinkKeys, h.mapLink)
  {
    Hall(FirstFilled(r, NameKeys), FirstFilled(r, AddressKeys), FirstFilled(r, MapLinkKeys))
  }

  /** `rows.map(...)`: one hall per row, in row order. */
  function MapHalls(rows: seq<Record>): (halls: seq<Hall>)
    ensures |halls| == |rows|
    ensures forall i :: 0 <= i < |rows| ==> halls[i] == MapHall(rows[i])
  {
    if rows == [] then [] else [MapHall(rows[0])] + MapHalls(rows[1..])
  }

  /** The fields of a mapped hall, spelled out. */
  lemma HallFields(r: Record)
    ensures MapHall(r).name ==
      if HasValue(r, "Name") then r["Name"] else if HasValue(r, "Όνομα") then r["Όνομα"] else ""
    ensures MapHall(r).address ==
      if HasValue(r, "Address") then r["Address"] else if HasValue(r, "Διεύθυνση") then r["Διεύθυνση"] else ""
    ensures MapHall(r).mapLink ==
      if HasValue(r, "MapLink") then r["MapLink"] else if HasValue(r, "Map") then r["Map"]
      else if HasValue(r, "Χάρτης") then r["Χάρτης"] else ""
  {
    FirstFilledOfTwo(r, "Name", "Όνομα");
    FirstFilledOfTwo(r, "Address", "Διεύθυνση");
    FirstFilledOfThree(r, "MapLink", "Map", "Χάρτης");
  }
}
