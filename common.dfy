/** Values shared by the server and the client model. */
module Common {

  datatype Option<+T> = None | Some(value: T)

  /** A document identifier (Mongo's `_id`), abstracted to a natural number. */
  type Id = nat

  /** A creation timestamp (Mongoose's `createdAt`), supplied by the clock. */
  type Timestamp = nat

  /**
   * A user as it travels in a JSON reply and as the client keeps it.
   * `idKey` records under which property the identifier is sent:
   * register answers with `_id`, login with `id`. There is no password field.
   */
  datatype UserJson = UserJson(
    idKey: string,
    id: Id,
    username: string,
    email: string,
    profileImage: string,
    createdAt: Timestamp)

  /** A JSON body carrying one text, under `message` or under `error`. */
  datatype Body = Message(text: string) | Error(text: string)

  /** JavaScript truthiness of an optional string: absent and "" are falsy. */
  predicate Truthy(s: Option<string>)
  {
    s.Some? && s.value != ""
  }
}
