/** The two stored document kinds: a registered user and a connected
    appliance. Fields follow the persistence schemas; optional fields and
    fields with a schema default are `Option`s, because a stored document may
    lack them and the code reads them with `|| 0`. */
module Records {

  import opened Optional

  /** A registered user. `passwordHash` is whatever the password hasher
      produced; the password itself is never stored. */
  datatype User = User(
    id: string,
    name: string,
    age: Option<nat>,
    email: string,
    phone: Option<string>,
    tnElectricityId: Option<string>,
    passwordHash: string,
    energyPoints: Option<nat>,
    energySaved: Option<nat>,
    coalSaved: Option<nat>,
    co2Reduced: Option<nat>
  )

  /** A connected appliance. The schema has no `status` or `usageHours`
      field, so those are absent on every stored appliance the backend itself
      creates; they are kept so that the assistant's handling of them can be
      stated. */
  datatype Appliance = Appliance(
    id: string,
    name: string,
    brand: string,
    deviceID: string,
    userId: string,
    powerConsumption: Option<nat>,
    isActive: bool,
    status: Option<string>,
    usageHours: Option<nat>
  )

  /** JavaScript truthiness of an optional string field: present and non-empty. */
  predicate Provided(field: Option<string>)
  {
    field.Some? && |field.value| > 0
  }
}
