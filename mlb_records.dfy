/** The value classes of the baseball database, field order as in their
    constructors. */
module MlbRecords {

  /** Address(team, site, street, city, state, zip, phone, url). */
  datatype Address = Address(
    team: string,
    arena: string,
    street: string,
    city: string,
    state: string,
    zip: string,
    phone: string,
    url: string)

  /** Player(id, name, team, position). */
  datatype Player = Player(id: string, name: string, team: string, position: string)

  /** Team(id, abbreviation, name, conference, division). */
  datatype Team = Team(id: string, abbreviation: string, name: string, conference: string, division: string)
}
