/** The optional value used wherever the source may produce nothing (a failed
    index, a null role id). */
module Options {

  datatype Option<+T> = None | Some(value: T)
}

/** The record read from one data line of the input file. */
module Models {

  /** One user to register: the five string properties of the source's
      UserData, in the column order of the input file. */
  datatype UserData = UserData(
    displayName: string,
    mailNickname: string,
    userPrincipalName: string,
    password: string,
    roleName: string)

  /** The five fields in column order. */
  function FieldsOf(u: UserData): (fields: seq<string>)
    ensures |fields| == 5
  {
    [u.displayName, u.mailNickname, u.userPrincipalName, u.password, u.roleName]
  }
}
