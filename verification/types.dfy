/** The record type the friend list is made of. */
module Types {

  /** One friend: the name shown in the table and the race the checkboxes
      filter on. */
  datatype Friend = Friend(name: string, race: string)
}
