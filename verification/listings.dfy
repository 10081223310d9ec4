/** A vehicle listing as the MarketCheck search API returns it and the pricing
    scripts read it back from JSON. A field the JSON leaves out is read as its
    falsy value (0 or the empty string): every use in the scripts either tests
    it for truth, compares it with `===` against a non-empty constant, or keeps
    it only when positive, and each of those treats a missing field and its
    falsy value alike. `trim` and `vin` are the exceptions: a trim also serves
    as an object key, and a VIN is interpolated into a URL, collected into a
    `Set` and matched with `===`; in each of those a missing value and an empty
    one differ. */
module Listings {
  import opened Results

  datatype Build = Build(year: int, make: string, model: string, trim: Option<string>)

  datatype Listing = Listing(vin: string, price: int, miles: int, build: Option<Build>)

  function Miles(l: Listing): int { l.miles }

  function Price(l: Listing): int { l.price }

  function Vin(l: Listing): string { l.vin }
}
