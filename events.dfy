/**
 * The row of the `events` table as the frontend reads it
 * (frontend/types/database.ts). Every column that may be `null` is an `Option`.
 * `raw_location_data` (untyped JSON) is not part of the model.
 */
module EventRecords {
  import opened Wrappers

  datatype Event = Event(
    id: string,
    name: Option<string>,
    title: Option<string>,
    description: Option<string>,
    category: Option<string>,
    eventType: Option<string>,   // the `type` column
    location: Option<string>,
    city: Option<string>,
    date: Option<string>,
    distance: Option<real>,
    price: Option<real>,
    capacity: Option<int>,
    imageUrl: Option<string>,
    link: Option<string>,
    lat: Option<real>,
    lng: Option<real>,
    createdAt: Option<string>)

  /** JavaScript truthiness of a nullable string: present and not empty. */
  predicate IsTruthyText(s: Option<string>) {
    s.Some? && s.value != ""
  }

  /** JavaScript truthiness of a nullable number: present and not zero (NaN is not modelled). */
  predicate IsTruthyNumber(x: Option<real>) {
    x.Some? && x.value != 0.0
  }
}
