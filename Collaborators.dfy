/**
 * The collaborators the controller calls but does not implement: the user
 * repository (storage), the Symfony validator, and libphonenumber. Each is
 * reduced to what the controller observes of it.
 */
module Collaborators {

  import opened Wrappers
  import opened Php

  /** A stored user, as its getters report it. */
  datatype User = User(id: int, firstName: string, lastName: string, email: string, subs: int)

  /** The three request fields of `store`: raw as decoded, or after normalisation. */
  datatype UserFields = UserFields(firstName: Json, lastName: Json, email: Json)

  /** One validator violation: `getPropertyPath()` and `getMessage()`. */
  datatype Violation = Violation(propertyPath: string, message: string)

  /** A number as libphonenumber parsed it. */
  datatype PhoneNumber = PhoneNumber(countryCode: int, nationalNumber: int)

  /**
   * libphonenumber as an oracle: `parse` yields None where `PhoneNumberUtil::parse`
   * throws `NumberParseException`; `isValidNumber` is the numbering-plan check.
   */
  datatype PhoneNumberUtil = PhoneNumberUtil(parse: string -> Option<PhoneNumber>, isValidNumber: PhoneNumber -> bool)

  predicate UniqueIds(users: seq<User>) {
    forall i, j :: 0 <= i < j < |users| ==> users[i].id != users[j].id
  }

  /** `findOneBy(['id' => id])` over the stored users: the first user with that id, or null. */
  function FindOneBy(users: seq<User>, id: int): (r: Option<User>)
    ensures r.None? <==> forall u :: u in users ==> u.id != id
    ensures r.Some? ==> r.value in users && r.value.id == id
    ensures r.Some? && UniqueIds(users) ==> forall u :: u in users && u.id == id ==> u == r.value
  {
    if users == [] then None
    else if users[0].id == id then Some(users[0])
    else
      var r := FindOneBy(users[1..], id);
      assert forall u :: u in users ==> u == users[0] || u in users[1..];
      assert UniqueIds(users) ==> UniqueIds(users[1..]);
      r
  }

  /**
   * The user repository: the stored users (what `findAll` returns, in storage
   * order), and the calls made to `saveUser`, whose outcome is the oracle `accepts`.
   */
  class UserRepository {
    var users: seq<User>
    var saveCalls: seq<UserFields>
    const accepts: UserFields -> bool

    constructor (users: seq<User>, accepts: UserFields -> bool)
      ensures this.users == users && this.accepts == accepts && saveCalls == []
    {
      this.users := users;
      this.accepts := accepts;
      saveCalls := [];
    }

    /** `saveUser(firstName, lastName, email)`: reports whether the user was created. */
    method SaveUser(firstName: Json, lastName: Json, email: Json) returns (ok: bool)
      modifies this`saveCalls
      ensures saveCalls == old(saveCalls) + [UserFields(firstName, lastName, email)]
      ensures ok == accepts(UserFields(firstName, lastName, email))
    {
      saveCalls := saveCalls + [UserFields(firstName, lastName, email)];
      ok := accepts(UserFields(firstName, lastName, email));
    }
  }

}
