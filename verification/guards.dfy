/** The checks handlers make on identifiers before they touch storage. */
module Guards {

  /** `!id || isNaN(id)` on an id read from the URL with unary `+`. Ids are modelled as
      integers, whose only falsy value is 0 and which are never NaN. */
  predicate RejectsId(id: int) {
    id == 0
  }

  /** `userId !== req.userData.userId`: the body names a user other than the one the
      token was issued to. */
  predicate Impersonates(bodyUserId: int, authId: int) {
    bodyUserId != authId
  }
}
