/**
 * The decision logic of `UserController`: the sticky `error` field and its
 * message table, the phone-number check, and the responses of the `index`,
 * `show` and `store` handlers. A response is its JSON body and HTTP status.
 */
module Controller {

  import opened Wrappers
  import opened Php
  import opened Collaborators

  datatype Response = Response(body: Json, status: int)

  const BadIdMessage: string := "Bad id or user not found"
  const CouldNotCreateMessage: string := "Could not create user"
  const MobileFormatMessage: string := "Could not validate mobile format"
  const PairedMobileMessage: string := "Please indicate indicMobile and mobile at the same time"
  const UndefinedMessage: string := "Undefined error"

  /** The fixed message of each code the controller knows. */
  const MessageTable: map<int, string> :=
    map[1 := BadIdMessage, 2 := CouldNotCreateMessage, 3 := MobileFormatMessage, 4 := PairedMobileMessage]

  // ---------------------------------------------------------------------------
  // error(): the error field and the message it reports

  /** The field as JSON: an unset field is null. */
  function CodeJson(field: Option<int>): Json {
    if field.Some? then JInt(field.value) else JNull
  }

  /** The body `{error, message}`. */
  function ErrorBody(field: Option<int>, message: string): Json {
    JObject([("error", CodeJson(field)), ("message", JStr(message))])
  }

  /**
   * The `switch ($this->error)` of `error()`: codes 1 to 3 assign their message
   * and break; code 4 assigns its message and falls through into `default`,
   * which replaces a falsy message by "Undefined error".
   */
  function SwitchMessage(field: Option<int>, message: Option<string>): string {
    if field == Some(1) then BadIdMessage
    else if field == Some(2) then CouldNotCreateMessage
    else if field == Some(3) then MobileFormatMessage
    else
      var m := if field == Some(4) then Some(PairedMobileMessage) else message;
      if TruthyString(m) then m.value else UndefinedMessage
  }

  /**
   * One call `error(code, message, status)` with the field at `field`: the new
   * field and the response. The field changes only for a truthy code; a code the
   * table knows reports the table's message whatever the caller passed; any
   * other (or an unset field) reports the caller's message when it is truthy.
   */
  function ErrorCall(field: Option<int>, code: Option<int>, message: Option<string>, status: int): (r: (Option<int>, Response))
    ensures TruthyInt(code) ==> r.0 == code
    ensures !TruthyInt(code) ==> r.0 == field
    ensures r.1.status == status
    ensures r.1.body == ErrorBody(r.0,
      if r.0.Some? && r.0.value in MessageTable then MessageTable[r.0.value]
      else if TruthyString(message) then message.value
      else UndefinedMessage)
  {
    var f := if TruthyInt(code) then code else field;
    (f, Response(ErrorBody(f, SwitchMessage(f, message)), status))
  }

  /** The arguments of one `error()` call. */
  datatype ErrorArgs = ErrorArgs(code: Option<int>, message: Option<string>, status: int)

  /** A run of `error()` calls on one controller: the final field and each response. */
  function ErrorCalls(field: Option<int>, calls: seq<ErrorArgs>): (r: (Option<int>, seq<Response>))
    ensures |r.1| == |calls|
    decreases |calls|
  {
    if calls == [] then (field, [])
    else
      var (f, resp) := ErrorCall(field, calls[0].code, calls[0].message, calls[0].status);
      var (g, rest) := ErrorCalls(f, calls[1..]);
      (g, [resp] + rest)
  }

  /** The code of the last call that passed a truthy one, or the initial field when none did. */
  function LastTruthyCode(field: Option<int>, calls: seq<ErrorArgs>): Option<int> {
    if calls == [] then field
    else if TruthyInt(calls[|calls| - 1].code) then calls[|calls| - 1].code
    else LastTruthyCode(field, calls[..|calls| - 1])
  }

  lemma {:induction false} ErrorCallsAppend(field: Option<int>, calls: seq<ErrorArgs>, c: ErrorArgs)
    ensures ErrorCalls(field, calls + [c]).0 == ErrorCall(ErrorCalls(field, calls).0, c.code, c.message, c.status).0
    decreases |calls|
  {
    if calls != [] {
      var f := ErrorCall(field, calls[0].code, calls[0].message, calls[0].status).0;
      assert (calls + [c])[1..] == calls[1..] + [c];
      ErrorCallsAppend(f, calls[1..], c);
    }
  }

  /** The field is sticky: after any run of calls it holds the last truthy code passed. */
  lemma {:induction false} ErrorFieldIsLastTruthyCode(field: Option<int>, calls: seq<ErrorArgs>)
    ensures ErrorCalls(field, calls).0 == LastTruthyCode(field, calls)
  {
    if calls != [] {
      var init := calls[..|calls| - 1];
      var c := calls[|calls| - 1];
      assert calls == init + [c];
      ErrorCallsAppend(field, init, c);
      ErrorFieldIsLastTruthyCode(field, init);
    }
  }

  /** Response `i` of a run is what call `i` answers with the field the calls before it left. */
  lemma {:induction false} ErrorCallsResponse(field: Option<int>, calls: seq<ErrorArgs>, i: nat)
    requires i < |calls|
    ensures ErrorCalls(field, calls).1[i] ==
      ErrorCall(ErrorCalls(field, calls[..i]).0, calls[i].code, calls[i].message, calls[i].status).1
    decreases i
  {
    if i > 0 {
      var f := ErrorCall(field, calls[0].code, calls[0].message, calls[0].status).0;
      ErrorCallsResponse(f, calls[1..], i - 1);
      assert calls[..i][1..] == calls[1..][..i - 1];
      assert calls[..i][0] == calls[0];
    }
  }

  /** Every response of a run reports, as its `error`, the last truthy code passed up to and including that call. */
  lemma {:induction false} ErrorCallsReportLastTruthyCode(field: Option<int>, calls: seq<ErrorArgs>, i: nat)
    requires i < |calls|
    ensures var body := ErrorCalls(field, calls).1[i].body;
      body.JObject? && Lookup(body.members, "error") == Some(CodeJson(LastTruthyCode(field, calls[..i + 1])))
  {
    var pre, c := calls[..i], calls[i];
    assert calls[..i + 1] == pre + [c];
    ErrorCallsAppend(field, pre, c);
    ErrorFieldIsLastTruthyCode(field, pre + [c]);
    ErrorCallsResponse(field, calls, i);
    var body := ErrorCalls(field, calls).1[i].body;
    LookupAt(body.members, "error", 0);
  }

  // ---------------------------------------------------------------------------
  // validatePhoneNumber()

  /** The string handed to the parser: `'+' . $indicMobile . $mobile`. */
  function PhoneString(indicMobile: int, mobile: int): string {
    "+" + IntToString(indicMobile) + IntToString(mobile)
  }

  /**
   * `validatePhoneNumber(indicMobile, mobile)` with the field at `field`: the new
   * field and the result. A parse failure or an invalid number sets the field to
   * 3 and yields null; otherwise the field is unchanged and the result is the
   * country code and national number of the PARSED number.
   */
  function PhoneCheck(field: Option<int>, util: PhoneNumberUtil, indicMobile: int, mobile: int): (r: (Option<int>, Option<(int, int)>))
    ensures var p := util.parse(PhoneString(indicMobile, mobile));
      r.1.None? <==> p.None? || !util.isValidNumber(p.value)
    ensures r.1.None? ==> r.0 == Some(3)
    ensures r.1.Some? ==> r.0 == field
    ensures r.1.Some? ==> var p := util.parse(PhoneString(indicMobile, mobile)).value;
      r.1.value == (p.countryCode, p.nationalNumber)
  {
    var p := util.parse(PhoneString(indicMobile, mobile));
    if p.None? then (Some(3), None)
    else if !util.isValidNumber(p.value) then (Some(3), None)
    else (field, Some((p.value.countryCode, p.value.nationalNumber)))
  }

  /**
   * For non-negative inputs the parser sees "+" and then the digits of
   * `indicMobile` followed by those of `mobile`: one number, with no separator.
   */
  lemma {:induction false} PhoneStringDigits(indicMobile: nat, mobile: nat)
    ensures var s := PhoneString(indicMobile, mobile);
      |s| >= 3 && s[0] == '+' && IsDigits(s[1..]) &&
      DecimalValue(s[1..]) == Shifted(indicMobile, |NatToString(mobile)|) + mobile
  {
    var a, b := NatToString(indicMobile), NatToString(mobile);
    assert IntToString(indicMobile) == a && IntToString(mobile) == b;
    var s := PhoneString(indicMobile, mobile);
    assert s == "+" + (a + b);
    assert s[1..] == a + b;
    NatToStringRoundTrip(indicMobile);
    NatToStringRoundTrip(mobile);
    DecimalValueAppend(a, b);
  }

  /**
   * Because of that, moving the last digit of `indicMobile` to the front of
   * `mobile` hands the parser the same string and so gets the same verdict:
   * (12, 3) and (1, 23) are both "+123". A trailing 0 cannot move, since an int
   * has no leading zero.
   */
  lemma {:induction false} ShiftedSplitIsInvisibleToParser(field: Option<int>, util: PhoneNumberUtil, indicMobile: nat, mobile: nat)
    requires indicMobile >= 10 && indicMobile % 10 != 0
    ensures PhoneString(indicMobile, mobile) ==
      PhoneString(indicMobile / 10, Shifted(indicMobile % 10, |NatToString(mobile)|) + mobile)
    ensures PhoneCheck(field, util, indicMobile, mobile) ==
      PhoneCheck(field, util, indicMobile / 10, Shifted(indicMobile % 10, |NatToString(mobile)|) + mobile)
  {
    var d := indicMobile % 10;
    var m := Shifted(d, |NatToString(mobile)|) + mobile;
    var head, c, tail := NatToString(indicMobile / 10), DigitChar(d), NatToString(mobile);
    PrependDigit(d, mobile);
    assert IntToString(m) == [c] + tail;
    assert IntToString(indicMobile) == head + [c];
    assert IntToString(indicMobile / 10) == head;
    assert IntToString(mobile) == tail;
    ConcatShift("+", head, c, tail);
    SameStringSameVerdict(field, util, indicMobile, mobile, indicMobile / 10, m);
  }

  /** The verdict depends on the inputs only through the string handed to the parser. */
  lemma {:induction false} SameStringSameVerdict(field: Option<int>, util: PhoneNumberUtil, a: int, b: int, a': int, b': int)
    requires PhoneString(a, b) == PhoneString(a', b')
    ensures PhoneCheck(field, util, a, b) == PhoneCheck(field, util, a', b')
  {
  }

  /** Moving one character across the boundary of two concatenated strings. */
  lemma {:induction false} ConcatShift(p: string, head: string, c: char, tail: string)
    ensures p + (head + [c]) + tail == p + head + ([c] + tail)
  {
  }

  // ---------------------------------------------------------------------------
  // index() and show()

  /** `r` is the record of `u`: exactly id, firstName, email and subs, in that order, and no lastName. */
  predicate IsRecordOf(r: Json, u: User) {
    && r.JObject? && Keys(r.members) == ["id", "firstName", "email", "subs"]
    && Lookup(r.members, "id") == Some(JInt(u.id))
    && Lookup(r.members, "firstName") == Some(JStr(u.firstName))
    && Lookup(r.members, "email") == Some(JStr(u.email))
    && Lookup(r.members, "subs") == Some(JInt(u.subs))
    && Lookup(r.members, "lastName") == None
  }

  /** The record `index` and `show` report for a user. */
  function Project(u: User): Json {
    JObject([("id", JInt(u.id)), ("firstName", JStr(u.firstName)), ("email", JStr(u.email)), ("subs", JInt(u.subs))])
  }

  /** That record has id, firstName, email and subs, each holding the user's value, and no lastName. */
  lemma {:induction false} ProjectIsRecord(u: User)
    ensures IsRecordOf(Project(u), u)
  {
    var members := Project(u).members;
    LookupAt(members, "id", 0);
    LookupAt(members, "firstName", 1);
    LookupAt(members, "email", 2);
    LookupAt(members, "subs", 3);
  }

  /** The response of `show` for `id`. It does not depend on the error field. */
  function ShowResponse(users: seq<User>, id: int): (r: Response)
    ensures r.status == 200 <==> exists u :: u in users && u.id == id
    ensures r.status != 200 ==> r == Response(JObject([("error", JInt(1)), ("message", JStr(BadIdMessage))]), 400)
    ensures r.status == 200 ==> exists u :: u in users && u.id == id && r == Response(Project(u), 200)
    ensures UniqueIds(users) ==> forall u :: u in users && u.id == id ==> r == Response(Project(u), 200)
  {
    match FindOneBy(users, id)
    case None => ErrorCall(None, Some(1), None, 400).1
    case Some(u) => Response(Project(u), 200)
  }

  // ---------------------------------------------------------------------------
  // store()

  /** `!empty($v) ? $v : null`. */
  function NormalizeField(v: Json): (r: Json)
    ensures Empty(v) ==> r == JNull
    ensures !Empty(v) ==> r == v
    ensures Empty(r) <==> r == JNull
  {
    if !Empty(v) then v else JNull
  }

  /** The validator's input built from the decoded request. */
  function Normalize(request: UserFields): (r: UserFields)
    ensures Empty(request.firstName) <==> r.firstName == JNull
    ensures Empty(request.lastName) <==> r.lastName == JNull
    ensures Empty(request.email) <==> r.email == JNull
    ensures !Empty(request.firstName) ==> r.firstName == request.firstName
    ensures !Empty(request.lastName) ==> r.lastName == request.lastName
    ensures !Empty(request.email) ==> r.email == request.email
  {
    UserFields(NormalizeField(request.firstName), NormalizeField(request.lastName), NormalizeField(request.email))
  }

  /** Normalising twice changes nothing more. */
  lemma {:induction false} NormalizeIdempotent(request: UserFields)
    ensures Normalize(Normalize(request)) == Normalize(request)
  {
  }

  /** `[$violation->getPropertyPath() => $violation->getMessage()]`. */
  function Entry(v: Violation): (a: Assoc)
    ensures |a| == 1 && UniqueKeys(a)
    ensures Get(a, v.propertyPath) == Some(v.message)
  {
    [(v.propertyPath, v.message)]
  }

  /** The JSON object an array of string values encodes to. */
  function AssocJson(a: Assoc): Json {
    JObject(seq(|a|, i requires 0 <= i < |a| => (a[i].0, JStr(a[i].1))))
  }

  /** The 400 body for a non-empty violation list: one single-entry object per violation, in order. */
  function ViolationBody(violations: seq<Violation>): (r: Json)
    ensures r.JArray? && |r.items| == |violations|
    ensures forall i :: 0 <= i < |violations| ==>
      r.items[i].JObject? &&
      Keys(r.items[i].members) == [violations[i].propertyPath] &&
      Lookup(r.items[i].members, violations[i].propertyPath) == Some(JStr(violations[i].message))
  {
    JArray(seq(|violations|, i requires 0 <= i < |violations| => AssocJson(Entry(violations[i]))))
  }

  lemma {:induction false} OneEntryReplace(x: Assoc)
    requires |x| == 1
    ensures ArrayReplace([], x) == x
    ensures ArrayReplace(x, x) == x
  {
    assert x[1..] == [];
  }

  /** Replacing a list of one-entry arrays by itself extended with one more gives the extension. */
  lemma {:induction false} ReplaceByExtension(errors: seq<Assoc>, e: Assoc)
    requires forall j :: 0 <= j < |errors| ==> |errors[j]| == 1
    requires |e| == 1
    ensures ArrayReplaceRecursive(errors, errors + [e]) == errors + [e]
  {
    var r := ArrayReplaceRecursive(errors, errors + [e]);
    forall j | 0 <= j < |errors| ensures r[j] == errors[j] {
      OneEntryReplace(errors[j]);
    }
  }

  /**
   * The loop of `store()` over the violations: `$errors[] = []` and then, per
   * violation, `$error[] = [path => message]` and
   * `$errors = array_replace_recursive($errors, $error)`.
   */
  method CollectViolations(violations: seq<Violation>) returns (errors: seq<Assoc>)
    ensures |violations| == 0 ==> errors == [[]]
    ensures |violations| > 0 ==> |errors| == |violations|
    ensures |violations| > 0 ==> forall i :: 0 <= i < |violations| ==> errors[i] == Entry(violations[i])
  {
    errors := [[]];
    var error: seq<Assoc> := [];
    if |violations| != 0 {
      for i := 0 to |violations|
        invariant |error| == i
        invariant forall j :: 0 <= j < i ==> error[j] == Entry(violations[j])
        invariant i == 0 ==> errors == [[]]
        invariant i > 0 ==> errors == error
      {
        if i == 0 {
          OneEntryReplace(Entry(violations[0]));
        } else {
          ReplaceByExtension(error, Entry(violations[i]));
        }
        error := error + [Entry(violations[i])];
        errors := ArrayReplaceRecursive(errors, error);
      }
    }
  }

  /** `b` echoes `request`: exactly email, firstName, lastName and subs, in that order, with subs 0. */
  predicate EchoesRequest(b: Json, request: UserFields) {
    && b.JObject? && Keys(b.members) == ["email", "firstName", "lastName", "subs"]
    && Lookup(b.members, "email") == Some(request.email)
    && Lookup(b.members, "firstName") == Some(request.firstName)
    && Lookup(b.members, "lastName") == Some(request.lastName)
    && Lookup(b.members, "subs") == Some(JInt(0))
  }

  /** The body of a successful `store`: the request's fields echoed as decoded, and subs 0. */
  function CreatedBody(request: UserFields): (b: Json)
    ensures EchoesRequest(b, request)
  {
    var members := [("email", request.email), ("firstName", request.firstName), ("lastName", request.lastName), ("subs", JInt(0))];
    LookupAt(members, "email", 0);
    LookupAt(members, "firstName", 1);
    LookupAt(members, "lastName", 2);
    LookupAt(members, "subs", 3);
    JObject(members)
  }

  /** What one `store` call does: the new error field, the response, and the `saveUser` call it made, if any. */
  datatype StoreOutcome = StoreOutcome(error: Option<int>, response: Response, saved: Option<UserFields>)

  /**
   * `store` with the field at `field`, the decoded `request`, the validator's
   * `violations` and the repository's verdict `accepted` on the raw fields.
   */
  function StoreSpec(field: Option<int>, request: UserFields, violations: seq<Violation>, accepted: bool): (r: StoreOutcome)
    ensures |violations| > 0 ==> r.saved.None? && r.error == field
    ensures |violations| > 0 ==> r.response.status == 400 && r.response.body == ViolationBody(violations)
    ensures |violations| == 0 ==> r.saved == Some(request)
    ensures |violations| == 0 && !accepted ==>
      r.error == Some(2) &&
      r.response == Response(JObject([("error", JInt(2)), ("message", JStr(CouldNotCreateMessage))]), 400)
    ensures |violations| == 0 && accepted ==> r.error == field && r.response == Response(CreatedBody(request), 200)
  {
    if |violations| != 0 then StoreOutcome(field, Response(ViolationBody(violations), 400), None)
    else if !accepted then
      var (f, resp) := ErrorCall(field, Some(2), None, 400);
      StoreOutcome(f, resp, Some(request))
    else StoreOutcome(field, Response(CreatedBody(request), 200), Some(request))
  }

  // ---------------------------------------------------------------------------
  // The controller object

  class UserController {
    /** The last error code set; null until one is. */
    var error: Option<int>
    const userRepository: UserRepository

    constructor (userRepository: UserRepository)
      ensures error == None && this.userRepository == userRepository
    {
      error := None;
      this.userRepository := userRepository;
    }

    /** `error(code, message, status)`; callers pass status 400 where the source relies on the default. */
    method Error(code: Option<int>, message: Option<string>, status: int) returns (resp: Response)
      modifies this
      ensures (error, resp) == ErrorCall(old(error), code, message, status)
    {
      if TruthyInt(code) {
        error := code;
      }
      resp := Response(ErrorBody(error, SwitchMessage(error, message)), status);
    }

    /** `validatePhoneNumber(indicMobile, mobile)`. */
    method ValidatePhoneNumber(util: PhoneNumberUtil, indicMobile: int, mobile: int) returns (r: Option<(int, int)>)
      modifies this
      ensures (error, r) == PhoneCheck(old(error), util, indicMobile, mobile)
    {
      var phoneNumber := util.parse(PhoneString(indicMobile, mobile));
      if phoneNumber.None? {
        error := Some(3);
        return None;
      }
      if !util.isValidNumber(phoneNumber.value) {
        error := Some(3);
        return None;
      }
      r := Some((phoneNumber.value.countryCode, phoneNumber.value.nationalNumber));
    }

    /** `index()`: every stored user's record, in storage order, with status 200. */
    method Index() returns (resp: Response)
      ensures resp.status == 200 && resp.body.JArray?
      ensures |resp.body.items| == |userRepository.users|
      ensures forall i :: 0 <= i < |userRepository.users| ==> resp.body.items[i] == Project(userRepository.users[i])
    {
      var users := userRepository.users;
      var data: seq<Json> := [];
      for i := 0 to |users|
        invariant |data| == i
        invariant forall j :: 0 <= j < i ==> data[j] == Project(users[j])
      {
        data := data + [Project(users[i])];
      }
      resp := Response(JArray(data), 200);
    }

    /** `show()` for the route's `id`. */
    method Show(id: int) returns (resp: Response)
      modifies this
      ensures resp == ShowResponse(userRepository.users, id)
      ensures error == if FindOneBy(userRepository.users, id).None? then Some(1) else old(error)
    {
      var user := FindOneBy(userRepository.users, id);
      if user.None? {
        resp := Error(Some(1), None, 400);
        return;
      }
      resp := Response(Project(user.value), 200);
    }

    /**
     * `store()` for the decoded `request`; `validator` is the Symfony validator
     * applied with the controller's constraint to the normalised fields.
     */
    method Store(request: UserFields, validator: UserFields -> seq<Violation>) returns (resp: Response)
      modifies this, userRepository`saveCalls
      ensures var o := StoreSpec(old(error), request, validator(Normalize(request)), userRepository.accepts(request));
        error == o.error && resp == o.response &&
        userRepository.saveCalls == old(userRepository.saveCalls) + (if o.saved.Some? then [o.saved.value] else [])
    {
      var input := Normalize(request);
      var violations := validator(input);
      if |violations| != 0 {
        var errors := CollectViolations(violations);
        resp := Response(JArray(seq(|errors|, i requires 0 <= i < |errors| => AssocJson(errors[i]))), 400);
        assert resp.body == ViolationBody(violations);
        return;
      }
      var ok := userRepository.SaveUser(request.firstName, request.lastName, request.email);
      if !ok {
        resp := Error(Some(2), None, 400);
        return;
      }
      resp := Response(CreatedBody(request), 200);
    }
  }

}
