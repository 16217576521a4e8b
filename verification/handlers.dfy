/**
 * The authentication handlers: the status mapping of the two OTP endpoints, the username
 * derived from a phone number, and the find-or-create of a user record from verified claims.
 * The identity service, the database connection and the clock are parameters or abstract state.
 */
module AuthHandlers {
  import opened Wrappers
  import opened Strings
  import opened Http
  import opened AuthTypes

  // ---------------------------------------------------------------------------------------------
  // OTP endpoints

  /** An HTTP response whose JSON body is the identity service's reply. */
  datatype OtpReply = OtpReply(status: int, body: FirebaseResponse)

  /** The status rule both OTP handlers apply to the service's reply. */
  function OtpStatus(response: FirebaseResponse): (r: OtpReply)
    ensures r.status == StatusUnprocessableEntity <==> response.error.Some?
    ensures r.status == StatusOk <==> response.error.None?
    ensures r.body == response
  {
    if response.error.Some? then OtpReply(StatusUnprocessableEntity, response)
    else OtpReply(StatusOk, response)
  }

  /** `send_otp_handler`: forwards the phone number to the service and maps its reply. */
  function SendOtpHandler(phoneNumber: string, sendOtp: string -> FirebaseResponse): (r: OtpReply)
    ensures r.body == sendOtp(phoneNumber)
    ensures r.status == StatusUnprocessableEntity <==> sendOtp(phoneNumber).error.Some?
    ensures r.status == StatusOk <==> sendOtp(phoneNumber).error.None?
  {
    OtpStatus(sendOtp(phoneNumber))
  }

  /** `verify_otp_handler`: forwards the session and the code to the service and maps its reply. */
  function VerifyOtpHandler(sessionInfo: string, code: string, verifyOtp: (string, string) -> FirebaseResponse): (r: OtpReply)
    ensures r.body == verifyOtp(sessionInfo, code)
    ensures r.status == StatusUnprocessableEntity <==> verifyOtp(sessionInfo, code).error.Some?
    ensures r.status == StatusOk <==> verifyOtp(sessionInfo, code).error.None?
  {
    OtpStatus(verifyOtp(sessionInfo, code))
  }

  // ---------------------------------------------------------------------------------------------
  // Usernames. A Rust `String` is UTF-8; `phone.len()` counts bytes and `&phone[i..]` slices at
  // byte `i`, panicking when `i` falls inside a character. The model keeps that byte view.

  /** Number of UTF-8 bytes that encode `c`. */
  function Utf8Width(c: char): nat {
    if c as int < 0x80 then 1
    else if c as int < 0x800 then 2
    else if c as int < 0x10000 then 3
    else 4
  }

  /** `str::len`: the byte length of `s` in UTF-8. */
  function ByteLen(s: string): (n: nat)
    ensures |s| <= n <= 4 * |s|
  {
    if s == [] then 0 else Utf8Width(s[0]) + ByteLen(s[1..])
  }

  predicate IsAscii(s: string) {
    forall i :: 0 <= i < |s| ==> s[i] as int < 0x80
  }

  /** `&s[b..]`: the text after the first `b` bytes, or None where Rust panics (off a boundary). */
  function DropBytes(s: string, b: nat): (r: Option<string>)
    ensures r.Some? ==> IsSuffix(r.value, s) && ByteLen(s) == b + ByteLen(r.value)
  {
    if b == 0 then Some(s)
    else if s == [] then None
    else if b < Utf8Width(s[0]) then None
    else DropBytes(s[1..], b - Utf8Width(s[0]))
  }

  /** Byte offset `b` of `s` lies between two characters (or at either end). */
  ghost predicate IsBoundary(s: string, b: nat) {
    exists k :: 0 <= k <= |s| && ByteLen(s[..k]) == b
  }

  /** The byte length of a non-empty prefix is its first character's width plus the rest's. */
  lemma PrefixByteLen(s: string, k: nat)
    requires 1 <= k <= |s|
    ensures ByteLen(s[..k]) == Utf8Width(s[0]) + ByteLen(s[1..][..k - 1])
  {
    assert s[..k][0] == s[0] && s[..k][1..] == s[1..][..k - 1];
  }

  /** Slicing at byte `b` succeeds exactly when `b` is a character boundary; Rust panics otherwise. */
  lemma {:induction false} DropBytesOnBoundary(s: string, b: nat)
    ensures DropBytes(s, b).Some? <==> IsBoundary(s, b)
    decreases |s|
  {
    if b == 0 {
      assert ByteLen(s[..0]) == 0;
    } else if s == [] {
      assert !IsBoundary(s, b) by {
        forall k | 0 <= k <= |s| ensures ByteLen(s[..k]) != b {
          assert s[..k] == [];
        }
      }
    } else {
      var w := Utf8Width(s[0]);
      if b < w {
        assert !IsBoundary(s, b) by {
          forall k | 0 <= k <= |s| ensures ByteLen(s[..k]) != b {
            if k == 0 {
              assert s[..k] == [];
            } else {
              PrefixByteLen(s, k);
            }
          }
        }
      } else {
        DropBytesOnBoundary(s[1..], b - w);
        if IsBoundary(s[1..], b - w) {
          var k' :| 0 <= k' <= |s[1..]| && ByteLen(s[1..][..k']) == b - w;
          PrefixByteLen(s, k' + 1);
        }
        if IsBoundary(s, b) {
          var k :| 0 <= k <= |s| && ByteLen(s[..k]) == b;
          assert k != 0;
          PrefixByteLen(s, k);
          assert IsBoundary(s[1..], b - w);
        }
      }
    }
  }

  /** `usize::saturating_sub`. */
  function SaturatingSub(a: nat, b: nat): nat {
    if a < b then 0 else a - b
  }

  const UsernamePrefix: string := "user_"

  /**
   * `generate_username`: `"user_"` followed by the phone's last four bytes, or None where the
   * slice would panic.
   */
  function GenerateUsername(phone: string): (r: Option<string>)
    ensures r.Some? ==>
      && StartsWith(r.value, UsernamePrefix)
      && IsSuffix(r.value[|UsernamePrefix|..], phone)
      && ByteLen(r.value[|UsernamePrefix|..]) == if ByteLen(phone) < 4 then ByteLen(phone) else 4
  {
    match DropBytes(phone, SaturatingSub(ByteLen(phone), 4))
    case None => None
    case Some(tail) =>
      var u := UsernamePrefix + tail;
      assert u[..|UsernamePrefix|] == UsernamePrefix && u[|UsernamePrefix|..] == tail;
      Some(u)
  }

  /** On ASCII text bytes and characters coincide. */
  lemma {:induction false} AsciiByteLen(s: string)
    requires IsAscii(s)
    ensures ByteLen(s) == |s|
  {
    if s != [] {
      assert IsAscii(s[1..]) by {
        forall i | 0 <= i < |s[1..]| ensures s[1..][i] as int < 0x80 {
          assert s[1..][i] == s[i + 1];
        }
      }
      AsciiByteLen(s[1..]);
    }
  }

  /** On ASCII text every byte offset up to the length is a boundary, and slicing is by character. */
  lemma {:induction false} AsciiDropBytes(s: string, b: nat)
    requires IsAscii(s) && b <= |s|
    ensures DropBytes(s, b) == Some(s[b..])
  {
    if b > 0 {
      assert IsAscii(s[1..]) by {
        forall i | 0 <= i < |s[1..]| ensures s[1..][i] as int < 0x80 {
          assert s[1..][i] == s[i + 1];
        }
      }
      AsciiDropBytes(s[1..], b - 1);
      assert s[1..][b - 1..] == s[b..];
    }
  }

  /**
   * For an ASCII phone no slice panics: the username is `"user_"` and the last `min(4, |p|)`
   * characters of the phone, so a phone shorter than four characters is kept whole.
   */
  lemma GenerateUsernameAscii(phone: string)
    requires IsAscii(phone)
    ensures var keep := if |phone| < 4 then |phone| else 4;
      && GenerateUsername(phone) == Some(UsernamePrefix + phone[|phone| - keep..])
      && |GenerateUsername(phone).value| == |UsernamePrefix| + keep
  {
    AsciiByteLen(phone);
    var keep := if |phone| < 4 then |phone| else 4;
    AsciiDropBytes(phone, |phone| - keep);
  }

  /** Two long enough ASCII phones get the same username exactly when their last four characters agree. */
  lemma UsernameCollision(p1: string, p2: string)
    requires IsAscii(p1) && IsAscii(p2) && |p1| >= 4 && |p2| >= 4
    ensures GenerateUsername(p1) == GenerateUsername(p2) <==> p1[|p1| - 4..] == p2[|p2| - 4..]
  {
    GenerateUsernameAscii(p1);
    GenerateUsernameAscii(p2);
    if GenerateUsername(p1) == GenerateUsername(p2) {
      var u := GenerateUsername(p1).value;
      assert u[|UsernamePrefix|..] == p1[|p1| - 4..];
      assert u[|UsernamePrefix|..] == p2[|p2| - 4..];
    }
  }

  /** `generate_username` panics exactly when the phone's fourth-to-last byte is not a character boundary. */
  lemma GenerateUsernamePanicsIff(phone: string)
    ensures GenerateUsername(phone).None? <==> !IsBoundary(phone, SaturatingSub(ByteLen(phone), 4))
  {
    DropBytesOnBoundary(phone, SaturatingSub(ByteLen(phone), 4));
  }

  /** A phone whose fourth-to-last byte lies inside a two-byte character makes the slice panic. */
  lemma GenerateUsernamePanicsOffBoundary()
    ensures GenerateUsername("1é€") == None
  {
    var p := "1é€";
    assert ByteLen(p) == 6;
    assert DropBytes(p, 2) == None by {
      assert p[1..] == "é€";
      assert DropBytes(p, 2) == DropBytes(p[1..], 1);
    }
  }

  // ---------------------------------------------------------------------------------------------
  // Find-or-create of a user from verified claims

  /** An opaque instant, as `Utc::now()` returns it. */
  type Timestamp = int

  /** A row of the users table with the columns the handler reads and writes. */
  datatype UserRecord = UserRecord(
    id: int,
    username: string,
    phoneNumber: string,
    createdAt: Option<Timestamp>,
    updatedAt: Option<Timestamp>)

  /** The JSON body `UserResponse`. */
  datatype UserResponse = UserResponse(
    id: int,
    username: string,
    phoneNumber: string,
    createdAt: Option<Timestamp>,
    updatedAt: Option<Timestamp>)

  /** What the handler produces: a JSON user, a `(StatusCode, String)` rejection, or a panic. */
  datatype Outcome = Ok(user: UserResponse) | Rejected(rejection: Rejection) | Panicked

  /** The result of one find-or-create: what the client sees and the table afterwards. */
  datatype Upserted = Upserted(outcome: Outcome, rows: seq<UserRecord>, nextId: int)

  const NoPhoneMessage: string := "No phone number in token"

  /** The response copies every field of the record it describes. */
  function ResponseOf(u: UserRecord): UserResponse {
    UserResponse(u.id, u.username, u.phoneNumber, u.createdAt, u.updatedAt)
  }

  /** `users::Entity::find().filter(phone_number == phone).one()`: the first row with that phone. */
  function FindByPhone(rows: seq<UserRecord>, phone: string): (r: Option<UserRecord>)
    ensures r.Some? <==> exists i :: 0 <= i < |rows| && rows[i].phoneNumber == phone
    ensures r.Some? ==> r.value in rows && r.value.phoneNumber == phone
    ensures r.Some? ==>
      exists i :: 0 <= i < |rows| && rows[i] == r.value && (forall j :: 0 <= j < i ==> rows[j].phoneNumber != phone)
  {
    if rows == [] then None
    else if rows[0].phoneNumber == phone then Some(rows[0])
    else
      var r := FindByPhone(rows[1..], phone);
      assert forall i :: 1 <= i < |rows| ==> rows[i] == rows[1..][i - 1];
      r
  }

  /** Some row already carries `name` in the unique `username` column. */
  predicate UsernameTaken(rows: seq<UserRecord>, name: string) {
    exists i :: 0 <= i < |rows| && rows[i].username == name
  }

  /** The record inserted for a phone that is not in the table yet. */
  function NewUser(id: int, username: string, phone: string, now: Timestamp): UserRecord {
    UserRecord(id, username, phone, Some(now), Some(now))
  }

  /**
   * `verify_token_and_upsert_user` as a function of the table: `findFault` and `insertFault`
   * are the database errors the two queries may report for reasons of their own,
   * `uniqueViolation` the text the store reports when an insert breaks the unique `username`
   * column, and `now` the clock reading.
   */
  function Upsert(rows: seq<UserRecord>, nextId: int, claims: Claims, now: Timestamp,
                  findFault: Option<string>, insertFault: Option<string>, uniqueViolation: string): (u: Upserted)
    ensures claims.phoneNumber.None? ==>
      u == Upserted(Rejected(Rejection(StatusBadRequest, NoPhoneMessage)), rows, nextId)
    ensures claims.phoneNumber.Some? && findFault.Some? ==>
      u == Upserted(Rejected(Rejection(StatusInternalServerError, findFault.value)), rows, nextId)
    ensures claims.phoneNumber.Some? && findFault.None? && FindByPhone(rows, claims.phoneNumber.value).Some? ==>
      u == Upserted(Ok(ResponseOf(FindByPhone(rows, claims.phoneNumber.value).value)), rows, nextId)
    ensures u.outcome.Panicked? <==>
      claims.phoneNumber.Some? && findFault.None? && FindByPhone(rows, claims.phoneNumber.value).None? &&
      GenerateUsername(claims.phoneNumber.value).None?
    ensures (claims.phoneNumber.Some? && findFault.None? && FindByPhone(rows, claims.phoneNumber.value).None? &&
             GenerateUsername(claims.phoneNumber.value).Some? && insertFault.Some?) ==>
      u == Upserted(Rejected(Rejection(StatusInternalServerError, insertFault.value)), rows, nextId)
    ensures (claims.phoneNumber.Some? && findFault.None? && FindByPhone(rows, claims.phoneNumber.value).None? &&
             GenerateUsername(claims.phoneNumber.value).Some? && insertFault.None? &&
             UsernameTaken(rows, GenerateUsername(claims.phoneNumber.value).value)) ==>
      u == Upserted(Rejected(Rejection(StatusInternalServerError, uniqueViolation)), rows, nextId)
    ensures u.rows != rows <==>
      claims.phoneNumber.Some? && findFault.None? && insertFault.None? &&
      FindByPhone(rows, claims.phoneNumber.value).None? && GenerateUsername(claims.phoneNumber.value).Some? &&
      !UsernameTaken(rows, GenerateUsername(claims.phoneNumber.value).value)
    ensures u.rows != rows ==>
      var user := NewUser(nextId, GenerateUsername(claims.phoneNumber.value).value, claims.phoneNumber.value, now);
      u == Upserted(Ok(ResponseOf(user)), rows + [user], nextId + 1)
    ensures u.rows == rows ==>
      && u.nextId == nextId
      && (u.outcome.Ok? ==>
            exists i :: 0 <= i < |rows| && u.outcome.user == ResponseOf(rows[i]) &&
              claims.phoneNumber.Some? && rows[i].phoneNumber == claims.phoneNumber.value)
  {
    match claims.phoneNumber
    case None => Upserted(Rejected(Rejection(StatusBadRequest, NoPhoneMessage)), rows, nextId)
    case Some(phone) =>
      if findFault.Some? then
        Upserted(Rejected(Rejection(StatusInternalServerError, findFault.value)), rows, nextId)
      else
        match FindByPhone(rows, phone)
        case Some(user) => Upserted(Ok(ResponseOf(user)), rows, nextId)
        case None =>
          match GenerateUsername(phone)
          case None => Upserted(Panicked, rows, nextId)
          case Some(username) =>
            if insertFault.Some? then
              Upserted(Rejected(Rejection(StatusInternalServerError, insertFault.value)), rows, nextId)
            else if UsernameTaken(rows, username) then
              Upserted(Rejected(Rejection(StatusInternalServerError, uniqueViolation)), rows, nextId)
            else
              var user := NewUser(nextId, username, phone, now);
              Upserted(Ok(ResponseOf(user)), rows + [user], nextId + 1)
  }

  /** Claims without a phone number are refused with 400 and the table is neither read nor changed. */
  lemma NoPhoneRejected(rows: seq<UserRecord>, nextId: int, claims: Claims, now: Timestamp,
                        findFault: Option<string>, insertFault: Option<string>, uniqueViolation: string)
    requires claims.phoneNumber.None?
    ensures var u := Upsert(rows, nextId, claims, now, findFault, insertFault, uniqueViolation);
      && u.outcome == Rejected(Rejection(StatusBadRequest, NoPhoneMessage))
      && u.rows == rows && u.nextId == nextId
    ensures forall other: seq<UserRecord> ::
      Upsert(other, nextId, claims, now, findFault, insertFault, uniqueViolation).outcome
        == Upsert(rows, nextId, claims, now, findFault, insertFault, uniqueViolation).outcome
  {
  }

  /**
   * In a table with one row per phone, the row holding the phone is returned as it is and the
   * table does not change; which row `.one()` picks never matters.
   */
  lemma ExistingUserReturned(rows: seq<UserRecord>, nextId: int, claims: Claims, now: Timestamp,
                             insertFault: Option<string>, uniqueViolation: string, i: nat)
    requires PhonesUnique(rows)
    requires claims.phoneNumber.Some?
    requires i < |rows| && rows[i].phoneNumber == claims.phoneNumber.value
    ensures var u := Upsert(rows, nextId, claims, now, None, insertFault, uniqueViolation);
      && u.outcome == Ok(ResponseOf(rows[i]))
      && u.rows == rows && u.nextId == nextId
  {
    forall j | 0 <= j < i ensures rows[j].phoneNumber != claims.phoneNumber.value {
      assert rows[j].phoneNumber != rows[i].phoneNumber;
    }
    FirstMatchReturned(rows, nextId, claims, now, insertFault, uniqueViolation, i);
  }

  /** The first row holding the phone is returned as it is and the table does not change. */
  lemma FirstMatchReturned(rows: seq<UserRecord>, nextId: int, claims: Claims, now: Timestamp,
                           insertFault: Option<string>, uniqueViolation: string, i: nat)
    requires claims.phoneNumber.Some?
    requires i < |rows| && rows[i].phoneNumber == claims.phoneNumber.value
    requires forall j :: 0 <= j < i ==> rows[j].phoneNumber != claims.phoneNumber.value
    ensures var u := Upsert(rows, nextId, claims, now, None, insertFault, uniqueViolation);
      && u.outcome == Ok(ResponseOf(rows[i]))
      && u.rows == rows && u.nextId == nextId
  {
    var r := FindByPhone(rows, claims.phoneNumber.value);
    assert r.Some?;
    var k :| 0 <= k < |rows| && rows[k] == r.value &&
      forall j :: 0 <= j < k ==> rows[j].phoneNumber != claims.phoneNumber.value;
    assert k == i;
  }

  /**
   * A phone not in the table and an ASCII phone (so no panic) whose derived username is free give,
   * when neither query fails, exactly one new row: the derived username, that phone,
   * `created_at == updated_at == now`; the response describes it.
   */
  lemma NewUserCreated(rows: seq<UserRecord>, nextId: int, claims: Claims, now: Timestamp, uniqueViolation: string)
    requires claims.phoneNumber.Some? && IsAscii(claims.phoneNumber.value)
    requires forall j :: 0 <= j < |rows| ==> rows[j].phoneNumber != claims.phoneNumber.value
    requires forall j :: 0 <= j < |rows| ==> Some(rows[j].username) != GenerateUsername(claims.phoneNumber.value)
    ensures var phone := claims.phoneNumber.value;
      var u := Upsert(rows, nextId, claims, now, None, None, uniqueViolation);
      && |u.rows| == |rows| + 1 && u.rows[..|rows|] == rows
      && var user := u.rows[|rows|];
      && user.id == nextId
      && Some(user.username) == GenerateUsername(phone)
      && user.phoneNumber == phone
      && user.createdAt == user.updatedAt == Some(now)
      && u.outcome == Ok(ResponseOf(user))
  {
    GenerateUsernameAscii(claims.phoneNumber.value);
    assert FindByPhone(rows, claims.phoneNumber.value).None?;
  }

  /** No two rows of the table share a phone number. */
  ghost predicate PhonesUnique(rows: seq<UserRecord>) {
    forall i, j :: 0 <= i < j < |rows| ==> rows[i].phoneNumber != rows[j].phoneNumber
  }

  /** No two rows of the table share a username: the column is declared unique. */
  ghost predicate UsernamesUnique(rows: seq<UserRecord>) {
    forall i, j :: 0 <= i < j < |rows| ==> rows[i].username != rows[j].username
  }

  /** Row ids are strictly increasing and all below the id the store hands out next. */
  ghost predicate IdsFresh(rows: seq<UserRecord>, nextId: int) {
    && (forall i, j :: 0 <= i < j < |rows| ==> rows[i].id < rows[j].id)
    && (forall i :: 0 <= i < |rows| ==> rows[i].id < nextId)
  }

  /** Find-or-create never adds a second row for a phone. */
  lemma UpsertKeepsPhonesUnique(rows: seq<UserRecord>, nextId: int, claims: Claims, now: Timestamp,
                                findFault: Option<string>, insertFault: Option<string>, uniqueViolation: string)
    requires PhonesUnique(rows)
    ensures PhonesUnique(Upsert(rows, nextId, claims, now, findFault, insertFault, uniqueViolation).rows)
  {
    var u := Upsert(rows, nextId, claims, now, findFault, insertFault, uniqueViolation);
    if u.rows != rows {
      var phone := claims.phoneNumber.value;
      assert FindByPhone(rows, phone).None?;
      assert u.rows == rows + [u.rows[|rows|]] && u.rows[|rows|].phoneNumber == phone;
    }
  }

  /** Find-or-create never inserts a username some row already has. */
  lemma UpsertKeepsUsernamesUnique(rows: seq<UserRecord>, nextId: int, claims: Claims, now: Timestamp,
                                   findFault: Option<string>, insertFault: Option<string>, uniqueViolation: string)
    requires UsernamesUnique(rows)
    ensures UsernamesUnique(Upsert(rows, nextId, claims, now, findFault, insertFault, uniqueViolation).rows)
  {
    var u := Upsert(rows, nextId, claims, now, findFault, insertFault, uniqueViolation);
    if u.rows != rows {
      var name := GenerateUsername(claims.phoneNumber.value).value;
      assert !UsernameTaken(rows, name);
      assert u.rows == rows + [u.rows[|rows|]] && u.rows[|rows|].username == name;
    }
  }

  /**
   * A new ASCII phone whose last four characters match those of a phone already registered by this
   * handler is refused with the store's unique-violation 500, and the table does not change.
   */
  lemma SharedLastFourRejected(rows: seq<UserRecord>, nextId: int, claims: Claims, now: Timestamp,
                               uniqueViolation: string, i: nat)
    requires claims.phoneNumber.Some?
    requires forall j :: 0 <= j < |rows| ==> rows[j].phoneNumber != claims.phoneNumber.value
    requires i < |rows| && Some(rows[i].username) == GenerateUsername(rows[i].phoneNumber)
    requires IsAscii(rows[i].phoneNumber) && IsAscii(claims.phoneNumber.value)
    requires |rows[i].phoneNumber| >= 4 && |claims.phoneNumber.value| >= 4
    requires rows[i].phoneNumber[|rows[i].phoneNumber| - 4..] == claims.phoneNumber.value[|claims.phoneNumber.value| - 4..]
    ensures Upsert(rows, nextId, claims, now, None, None, uniqueViolation)
      == Upserted(Rejected(Rejection(StatusInternalServerError, uniqueViolation)), rows, nextId)
  {
    var phone := claims.phoneNumber.value;
    UsernameCollision(rows[i].phoneNumber, phone);
    assert FindByPhone(rows, phone).None?;
    assert UsernameTaken(rows, GenerateUsername(phone).value);
  }

  /** Find-or-create gives a new row the id after every existing one, and moves the counter past it. */
  lemma UpsertKeepsIdsFresh(rows: seq<UserRecord>, nextId: int, claims: Claims, now: Timestamp,
                            findFault: Option<string>, insertFault: Option<string>, uniqueViolation: string)
    requires IdsFresh(rows, nextId)
    ensures var u := Upsert(rows, nextId, claims, now, findFault, insertFault, uniqueViolation);
      IdsFresh(u.rows, u.nextId)
  {
    var u := Upsert(rows, nextId, claims, now, findFault, insertFault, uniqueViolation);
    if u.rows != rows {
      assert u.rows == rows + [u.rows[|rows|]] && u.rows[|rows|].id == nextId && u.nextId == nextId + 1;
    }
  }

  /** The table only grows: every existing row is kept, in place, and at most one is added. */
  lemma UpsertOnlyAppends(rows: seq<UserRecord>, nextId: int, claims: Claims, now: Timestamp,
                          findFault: Option<string>, insertFault: Option<string>, uniqueViolation: string)
    ensures var u := Upsert(rows, nextId, claims, now, findFault, insertFault, uniqueViolation);
      && |rows| <= |u.rows| <= |rows| + 1 && u.rows[..|rows|] == rows
      && (|u.rows| == |rows| + 1 <==> u.nextId == nextId + 1)
      && (u.rows != rows ==> u.outcome.Ok? && u.outcome.user == ResponseOf(u.rows[|rows|]))
  {
  }

  /** A second find-or-create for the same claims returns the same user and changes nothing. */
  lemma {:induction false} UpsertIdempotent(rows: seq<UserRecord>, nextId: int, claims: Claims,
                                            now: Timestamp, later: Timestamp, uniqueViolation: string)
    requires claims.phoneNumber.Some?
    ensures var first := Upsert(rows, nextId, claims, now, None, None, uniqueViolation);
      var second := Upsert(first.rows, first.nextId, claims, later, None, None, uniqueViolation);
      first.outcome.Ok? ==>
        && second.outcome == first.outcome
        && second.rows == first.rows && second.nextId == first.nextId
  {
    var phone := claims.phoneNumber.value;
    var first := Upsert(rows, nextId, claims, now, None, None, uniqueViolation);
    if first.outcome.Ok? && first.rows != rows {
      var found := FindByPhone(rows, phone);
      assert found.None?;
      var user := first.rows[|rows|];
      assert first.rows == rows + [user];
      assert forall j :: 0 <= j < |rows| ==> first.rows[j].phoneNumber != phone;
      FirstMatchReturned(first.rows, first.nextId, claims, later, None, uniqueViolation, |rows|);
    }
  }

  // ---------------------------------------------------------------------------------------------
  // The users table as the handler changes it

  /** The users table, as far as this handler reads and writes it. */
  class UsersTable {
    var rows: seq<UserRecord>
    /** The id the store assigns to the next inserted row. */
    var nextId: int

    ghost predicate Valid()
      reads this
    {
      IdsFresh(rows, nextId) && PhonesUnique(rows) && UsernamesUnique(rows)
    }

    constructor ()
      ensures Valid() && rows == [] && nextId == 1
    {
      rows := [];
      nextId := 1;
    }

    /**
     * `verify_token_and_upsert_user`, run against this table: find the caller's row by phone,
     * or insert one; the database errors and the clock are inputs.
     */
    method VerifyTokenAndUpsertUser(claims: Claims, now: Timestamp,
                                    findFault: Option<string>, insertFault: Option<string>, uniqueViolation: string)
      returns (outcome: Outcome)
      requires Valid()
      modifies this
      ensures Valid()
      ensures var u := Upsert(old(rows), old(nextId), claims, now, findFault, insertFault, uniqueViolation);
        outcome == u.outcome && rows == u.rows && nextId == u.nextId
      ensures |old(rows)| <= |rows| <= |old(rows)| + 1 && rows[..|old(rows)|] == old(rows)
    {
      UpsertKeepsIdsFresh(rows, nextId, claims, now, findFault, insertFault, uniqueViolation);
      UpsertKeepsPhonesUnique(rows, nextId, claims, now, findFault, insertFault, uniqueViolation);
      UpsertKeepsUsernamesUnique(rows, nextId, claims, now, findFault, insertFault, uniqueViolation);
      UpsertOnlyAppends(rows, nextId, claims, now, findFault, insertFault, uniqueViolation);
      if claims.phoneNumber.None? {
        outcome := Rejected(Rejection(StatusBadRequest, NoPhoneMessage));
        return;
      }
      var phone := claims.phoneNumber.value;
      if findFault.Some? {
        outcome := Rejected(Rejection(StatusInternalServerError, findFault.value));
        return;
      }
      var existing := FindByPhone(rows, phone);
      if existing.Some? {
        outcome := Ok(ResponseOf(existing.value));
        return;
      }
      var username := GenerateUsername(phone);
      if username.None? {
        outcome := Panicked;
        return;
      }
      if insertFault.Some? {
        outcome := Rejected(Rejection(StatusInternalServerError, insertFault.value));
        return;
      }
      if UsernameTaken(rows, username.value) {
        outcome := Rejected(Rejection(StatusInternalServerError, uniqueViolation));
        return;
      }
      var user := NewUser(nextId, username.value, phone, now);
      rows := rows + [user];
      nextId := nextId + 1;
      outcome := Ok(ResponseOf(user));
    }
  }
}
