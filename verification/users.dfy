/** The user entity. Only the accessors the lending core calls are
    modelled: `getUserId` and `getEmail` (plus the name it is built with). */
module Users {

  datatype User = User(userId: string, name: string, email: string)
}
