/** The car record shared by the listing, the favorites store and the page. */
module Cars {

  /** One car of the rental catalogue. Only `id` takes part in any behaviour
      modelled here; every other field is payload carried along unchanged.
      JavaScript numbers (`year`, `mileage`) are modelled as unbounded integers.
      `kind` is the record's `type` field, renamed because `type` is a Dafny keyword. */
  datatype Car = Car(
    id: string,
    year: int,
    make: string,
    model: string,
    kind: string,
    img: string,
    description: string,
    fuelConsumption: string,
    engineSize: string,
    accessories: seq<string>,
    functionalities: seq<string>,
    rentalPrice: string,
    rentalCompany: string,
    address: string,
    rentalConditions: string,
    mileage: int
  )
}
