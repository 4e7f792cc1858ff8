/**
 * The records of the API: user accounts and astronaut records, with the two
 * role strings. Timestamps are abstract instants; 0 stands for Go's zero time.
 */
module Model {

  type Time = int

  const Admin: string := "admin"
  const BaseUser: string := "user"

  /** A user account. `password` holds plaintext on the way in and a hash once stored. */
  datatype User = User(
    id: int,
    firstName: string,
    surname: string,
    email: string,
    password: string,
    role: string,
    apiKey: string,
    createdAt: Time,
    updatedAt: Time)

  /**
   * An astronaut record. The `...Str` fields hold the seed file's list columns
   * before they are split into the list fields at the end.
   */
  datatype Astronaut = Astronaut(
    id: int,
    name: string,
    year: int,
    group: int,
    status: string,
    birthDate: string,
    birthPlace: string,
    gender: string,
    almaMaterStr: string,
    undergraduateMajorStr: string,
    graduateMajorStr: string,
    militaryRank: string,
    militaryBranch: string,
    spaceFlights: int,
    spaceFlightHours: int,
    spaceWalks: int,
    spaceWalkHours: int,
    missionStr: string,
    deathDate: string,
    deathMission: string,
    missions: seq<string>,
    undergraduateMajor: seq<string>,
    graduateMajor: seq<string>,
    almaMater: seq<string>)
}
