/** Ids, errors and outcomes shared by the parts of the social graph. */
module Identifiers {

  type UserID = int
  type GroupID = int

  /** Both id counters of the rooms and the one of the users start here. */
  const FIRST_ID := 10000

  datatype VerificationType = Sent | Received

  datatype Error =
    | InvalidVerification
    | UserNotExisted
    | PrivateRoomExisted
    | PrivateRoomNotExisted
    | GroupRoomNotExisted
    | VerificationExisted
    | VerificationNotExisted

  /** `Undefined` is a read behind the end of a multimap. */
  datatype Outcome =
    | Returned(ok: bool)
    | Registered(user: UserID)
    | Created(group: GroupID)
    | Delivered(room: GroupID, receivers: set<UserID>)
    | Dropped
    | Threw(error: Error)
    | Undefined
}
