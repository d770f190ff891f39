/** The stored user document shared by the authentication and users components. */
module Accounts {

  /** A user record as the repositories return it; `password` is the stored hash. */
  datatype User = User(id: string, name: string, email: string, password: string)
}
