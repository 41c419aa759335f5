/** The user record the service and controller pass around. */
module Users {
  import opened Wrappers
  import opened Decimal

  /** A user: `id` is absent (Java `null`) until the repository assigns one;
      `email` is the key the service keeps unique. */
  datatype User = User(id: Option<Long>, username: string, email: string)
}
