/**
 * The password API: the route in `app/api/passwords/route.ts` (create and
 * list by website) and the route pasted into
 * `app/components/AddPasswords.tsx` (create and reveal by id). Both write
 * the same collection; the password and the phone number are stored as
 * envelopes, the other fields as they were sent.
 */
module PasswordRoute {
  import opened Wrappers
  import opened Hex
  import opened Text
  import opened KeyConfig
  import opened Api
  import Utils

  /**
   * `encryptPassword`, the same in both route files: update and final are
   * hex-encoded one after the other. It writes the same envelope as
   * `encryptCard` in `lib/utils.ts`.
   */
  function EncryptPassword(c: Utils.Cipher, key: Key, iv: Utils.Iv, text: string): (envelope: string)
    ensures envelope == Utils.EncryptCard(c, key, iv, text)
  {
    EncodeAppend(c.update(key, iv, text), c.final(key, iv, text));
    Encode(iv) + ":" + (Encode(c.update(key, iv, text)) + Encode(c.final(key, iv, text)))
  }

  /**
   * `decryptPassword` of the pasted route: the first colon-separated piece
   * is the IV, and all the remaining pieces glued together
   * (`parts.join("")`) are the ciphertext.
   */
  function DecryptPassword(c: Utils.Cipher, key: Key, text: string): Result<string, Utils.CipherError> {
    var parts := SplitOnColon(text);
    Utils.OpenSegments(c, key, parts[0], Concat(parts[1..]))
  }

  /** After the IV, every further colon is simply deleted from the ciphertext hex. */
  lemma DecryptPasswordRemovesColons(c: Utils.Cipher, key: Key, ivHex: string, rest: string)
    requires ':' !in ivHex
    ensures DecryptPassword(c, key, ivHex + ":" + rest) == Utils.OpenSegments(c, key, ivHex, RemoveColons(rest))
  {
    SplitAtFirstColon(ivHex, rest);
    ConcatSplit(rest);
    assert ([ivHex] + SplitOnColon(rest))[1..] == SplitOnColon(rest);
  }

  /** Without any colon the whole text is taken as the IV and the ciphertext is empty. */
  lemma DecryptPasswordWithoutColon(c: Utils.Cipher, key: Key, text: string)
    requires ':' !in text
    ensures DecryptPassword(c, key, text) == Utils.OpenSegments(c, key, text, "")
  {
    SplitColonFree(text);
  }

  /** On an envelope with a single colon it agrees with `decryptCard` of `lib/utils.ts`. */
  lemma DecryptPasswordAgreesOnEnvelopes(c: Utils.Cipher, key: Key, ivHex: string, cipherHex: string)
    requires ':' !in ivHex && ':' !in cipherHex
    ensures DecryptPassword(c, key, ivHex + ":" + cipherHex) == Utils.DecryptCard(c, key, ivHex + ":" + cipherHex)
  {
    DecryptPasswordRemovesColons(c, key, ivHex, cipherHex);
    RemoveColonsIdentity(cipherHex);
    Utils.DecryptCardIgnoresExtraSegments(c, key, ivHex, cipherHex, "");
    SplitAtFirstColon(ivHex, cipherHex);
    SplitColonFree(cipherHex);
  }

  lemma {:induction false} RemoveColonsIdentity(s: string)
    requires ':' !in s
    ensures RemoveColons(s) == s
  {
    if s != [] {
      RemoveColonsIdentity(s[1..]);
      assert [s[0]] + s[1..] == s;
    }
  }

  /** Round trip: `decryptPassword(encryptPassword(p)) == p` for a cipher that inverts. */
  lemma DecryptPasswordRoundTrip(c: Utils.Cipher, key: Key, iv: Utils.Iv, text: string)
    requires Utils.Inverts(c)
    ensures DecryptPassword(c, key, EncryptPassword(c, key, iv, text)) == Success(text)
  {
    Utils.EncryptCardShape(c, key, iv, text);
    var bytes := c.Ciphertext(key, iv, text);
    LowerHexHasNoColon(Encode(iv));
    LowerHexHasNoColon(Encode(bytes));
    DecryptPasswordAgreesOnEnvelopes(c, key, Encode(iv), Encode(bytes));
    Utils.DecryptCardRoundTrip(c, key, iv, text);
  }

  /** A document of the password collection. */
  datatype PasswordRecord = PasswordRecord(
    id: string,
    website: string,
    username: string,
    password: string,  // envelope
    phone: string,     // envelope
    question: string,
    createdAt: nat)

  /**
   * The fields of a POST body that either route reads: the route file asks
   * for `QuestionName`, the pasted route and the form use `question`.
   */
  datatype PasswordBody = PasswordBody(
    website: Option<string>,
    username: Option<string>,
    password: Option<string>,
    phone: Option<string>,
    questionName: Option<string>,
    question: Option<string>)

  /** The acknowledgment of a successful POST in the route file. */
  datatype Added = Added(id: string, passwordNumber: string)

  /** The presence check of `app/api/passwords/route.ts`. */
  predicate RouteFieldsPresent(b: PasswordBody) {
    Present(b.website) && Present(b.username) && Present(b.password) && Present(b.phone) && Present(b.questionName)
  }

  /** The presence check of the pasted route. */
  predicate PastedRouteFieldsPresent(b: PasswordBody) {
    Present(b.website) && Present(b.username) && Present(b.password) && Present(b.phone) && Present(b.question)
  }

  /** The body the form posts: `{ website, username, password, phone, question }`. */
  function FormBody(website: string, username: string, password: string, phone: string, question: string): PasswordBody {
    PasswordBody(Some(website), Some(username), Some(password), Some(phone), None, Some(question))
  }

  /** The body the form evidently means to post: the question under the key the route reads. */
  function FormBodyCorrected(website: string, username: string, password: string, phone: string, question: string): PasswordBody {
    PasswordBody(Some(website), Some(username), Some(password), Some(phone), Some(question), None)
  }

  /** Whatever the user types, the route file refuses the form's body as incomplete. */
  lemma FormBodyRejectedByRoute(website: string, username: string, password: string, phone: string, question: string)
    ensures !RouteFieldsPresent(FormBody(website, username, password, phone, question))
    ensures PastedRouteFieldsPresent(FormBody(website, username, password, phone, question)) <==>
            website != "" && username != "" && password != "" && phone != "" && question != ""
  {
  }

  /** With the question under `QuestionName`, a completely filled-in form passes the route's check. */
  lemma FormBodyCorrectedAccepted(website: string, username: string, password: string, phone: string, question: string)
    ensures RouteFieldsPresent(FormBodyCorrected(website, username, password, phone, question)) <==>
            website != "" && username != "" && password != "" && phone != "" && question != ""
  {
  }

  /** `password.find({ website: websiteId })`, in stored order. */
  function WithWebsite(records: seq<PasswordRecord>, website: string): (found: seq<PasswordRecord>)
    ensures forall r :: r in found <==> r in records && r.website == website
    ensures |found| <= |records|
  {
    if records == [] then []
    else (if records[0].website == website then [records[0]] else []) + WithWebsite(records[1..], website)
  }

  /** The query keeps the stored order: it distributes over concatenation. */
  lemma {:induction false} WithWebsiteAppend(a: seq<PasswordRecord>, b: seq<PasswordRecord>, website: string)
    ensures WithWebsite(a + b, website) == WithWebsite(a, website) + WithWebsite(b, website)
  {
    if a == [] {
      assert a + b == b;
    } else {
      assert (a + b)[1..] == a[1..] + b;
      WithWebsiteAppend(a[1..], b, website);
    }
  }

  /** `PasswordModel.findById(id)`. */
  function FindById(records: seq<PasswordRecord>, id: string): (k: Option<nat>)
    ensures k.Some? ==> k.value < |records| && records[k.value].id == id
    ensures k.None? ==> forall i :: 0 <= i < |records| ==> records[i].id != id
  {
    if records == [] then None
    else if records[0].id == id then Some(0)
    else
      match FindById(records[1..], id)
      case None => None
      case Some(k) => Some(k + 1)
  }

  /** A stored record deciphers to what was submitted for it. */
  ghost predicate Sealed(r: PasswordRecord, c: Utils.Cipher, key: Key,
                         passwords: map<string, string>, phones: map<string, string>)
  {
    && r.id in passwords && r.id in phones
    && DecryptPassword(c, key, r.password) == Success(passwords[r.id])
    && DecryptPassword(c, key, r.phone) == Success(phones[r.id])
  }

  predicate UniqueIds(records: seq<PasswordRecord>) {
    forall i, j :: 0 <= i < j < |records| ==> records[i].id != records[j].id
  }

  /** What the invariant says of each record on its own. */
  ghost predicate RecordOk(r: PasswordRecord, c: Utils.Cipher, key: Key, validId: string -> bool,
                           passwords: map<string, string>, phones: map<string, string>, clock: nat)
  {
    validId(r.id) && r.createdAt < clock && Sealed(r, c, key, passwords, phones)
  }

  /** The invariant of the password table. */
  ghost predicate TableOk(records: seq<PasswordRecord>, c: Utils.Cipher, key: Key, validId: string -> bool,
                          passwords: map<string, string>, phones: map<string, string>, clock: nat)
  {
    && (forall r :: r in records ==> RecordOk(r, c, key, validId, passwords, phones, clock))
    && UniqueIds(records)
  }

  /** Recording the plaintexts of another id and advancing the clock leave a record's facts true. */
  lemma RecordOkFrame(r: PasswordRecord, c: Utils.Cipher, key: Key, validId: string -> bool,
                      passwords: map<string, string>, phones: map<string, string>, clock: nat,
                      id: string, password: string, phone: string)
    requires RecordOk(r, c, key, validId, passwords, phones, clock) && r.id != id
    ensures RecordOk(r, c, key, validId, passwords[id := password], phones[id := phone], clock + 1)
  {
  }

  /** Appending a record with a new id keeps the ids unique. */
  lemma UniqueAppend(records: seq<PasswordRecord>, record: PasswordRecord)
    requires UniqueIds(records)
    requires forall r :: r in records ==> r.id != record.id
    ensures UniqueIds(records + [record])
  {
    var records' := records + [record];
    forall i, j | 0 <= i < j < |records'| ensures records'[i].id != records'[j].id {
      if j < |records| {
        assert records'[i] == records[i] && records'[j] == records[j];
      } else {
        assert records'[i] in records;
      }
    }
  }

  /** Inserting a fresh record keeps the invariant. */
  lemma TableAppend(records: seq<PasswordRecord>, c: Utils.Cipher, key: Key, validId: string -> bool,
                    passwords: map<string, string>, phones: map<string, string>, clock: nat,
                    record: PasswordRecord, password: string, phone: string)
    requires TableOk(records, c, key, validId, passwords, phones, clock)
    requires forall r :: r in records ==> r.id != record.id
    requires validId(record.id) && record.createdAt == clock
    requires DecryptPassword(c, key, record.password) == Success(password)
    requires DecryptPassword(c, key, record.phone) == Success(phone)
    ensures TableOk(records + [record], c, key, validId, passwords[record.id := password], phones[record.id := phone], clock + 1)
  {
    var passwords', phones' := passwords[record.id := password], phones[record.id := phone];
    forall r | r in records + [record] ensures RecordOk(r, c, key, validId, passwords', phones', clock + 1) {
      if r != record {
        assert r in records;
        RecordOkFrame(r, c, key, validId, passwords, phones, clock, record.id, password, phone);
      }
    }
    UniqueAppend(records, record);
  }

  /**
   * The password collection. Valid() says: every stored password and phone
   * deciphers to what was submitted for it (`passwords`, `phones`), and ids
   * are well-formed and unique.
   */
  class PasswordStore {
    const cipher: Utils.Cipher
    const key: Key
    /** `mongoose.Types.ObjectId.isValid`, left uninterpreted. */
    const validId: string -> bool
    var records: seq<PasswordRecord>
    /** The next `createdAt` stamp. */
    var clock: nat
    ghost var passwords: map<string, string>
    ghost var phones: map<string, string>

    ghost predicate Valid()
      reads this
    {
      Utils.Inverts(cipher) && TableOk(records, cipher, key, validId, passwords, phones, clock)
    }

    /** The module loaded: the key passed the guard. */
    constructor (cipher: Utils.Cipher, key: Key, validId: string -> bool)
      requires Utils.Inverts(cipher)
      ensures Valid()
      ensures this.cipher == cipher && this.key == key && this.validId == validId
      ensures records == [] && clock == 0 && passwords == map[] && phones == map[]
    {
      this.cipher := cipher;
      this.key := key;
      this.validId := validId;
      records := [];
      clock := 0;
      passwords := map[];
      phones := map[];
    }

    /**
     * POST of `app/api/passwords/route.ts` as written. The destructured
     * `password` string shadows the imported model, so `password.create`
     * throws once the fields are present and both are enciphered: the
     * answer is then always the generic 500 and nothing is stored.
     */
    method PostAsWritten(body: PasswordBody, passwordIv: Utils.Iv, phoneIv: Utils.Iv) returns (resp: Response<Added>)
      ensures !RouteFieldsPresent(body) ==> resp == Err(BadRequest, "Missing required fields")
      ensures RouteFieldsPresent(body) ==> resp == Err(ServerError, "Failed to add password")
    {
      if !RouteFieldsPresent(body) {
        return Err(BadRequest, "Missing required fields");
      }
      var sealedPassword := EncryptPassword(cipher, key, passwordIv, body.password.value);
      var sealedPhone := EncryptPassword(cipher, key, phoneIv, body.phone.value);
      // `password.create` is looked up on the string: a TypeError, caught below it.
      resp := Err(ServerError, "Failed to add password");
    }

    /**
     * POST of `app/api/passwords/route.ts` as evidently intended (the model's
     * `create`): all five fields are required; the password and the phone are
     * enciphered under their own IVs; the answer masks the tail of the raw
     * password. `newId` is the `_id` the database assigns.
     */
    method Post(body: PasswordBody, passwordIv: Utils.Iv, phoneIv: Utils.Iv, newId: string) returns (resp: Response<Added>)
      requires Valid()
      requires validId(newId) && forall r :: r in records ==> r.id != newId
      modifies this
      ensures Valid()
      ensures !RouteFieldsPresent(body) ==>
                && resp == Err(BadRequest, "Missing required fields")
                && records == old(records) && clock == old(clock)
                && passwords == old(passwords) && phones == old(phones)
      ensures RouteFieldsPresent(body) ==>
                && records == old(records) + [PasswordRecord(newId, body.website.value, body.username.value,
                                                             Utils.EncryptCard(cipher, key, passwordIv, body.password.value),
                                                             Utils.EncryptCard(cipher, key, phoneIv, body.phone.value),
                                                             body.questionName.value, old(clock))]
                && clock == old(clock) + 1
                && passwords == old(passwords)[newId := body.password.value]
                && phones == old(phones)[newId := body.phone.value]
                && resp == Ok(Added(newId, Utils.MaskPasswordNumber(body.password.value)))
    {
      if !RouteFieldsPresent(body) {
        return Err(BadRequest, "Missing required fields");
      }
      var record := Seal(body.website.value, body.username.value, body.password.value, body.phone.value,
                         body.questionName.value, passwordIv, phoneIv, newId);
      resp := Ok(Added(newId, "**** **** **** " + Utils.LastFour(body.password.value)));
    }

    /**
     * POST of the pasted route: the fifth required field is `question`; the
     * answer is the new id.
     */
    method PostFromForm(body: PasswordBody, passwordIv: Utils.Iv, phoneIv: Utils.Iv, newId: string) returns (resp: Response<string>)
      requires Valid()
      requires validId(newId) && forall r :: r in records ==> r.id != newId
      modifies this
      ensures Valid()
      ensures !PastedRouteFieldsPresent(body) ==>
                && resp == Err(BadRequest, "Missing required fields")
                && records == old(records) && clock == old(clock)
                && passwords == old(passwords) && phones == old(phones)
      ensures PastedRouteFieldsPresent(body) ==>
                && records == old(records) + [PasswordRecord(newId, body.website.value, body.username.value,
                                                             Utils.EncryptCard(cipher, key, passwordIv, body.password.value),
                                                             Utils.EncryptCard(cipher, key, phoneIv, body.phone.value),
                                                             body.question.value, old(clock))]
                && clock == old(clock) + 1
                && passwords == old(passwords)[newId := body.password.value]
                && phones == old(phones)[newId := body.phone.value]
                && resp == Ok(newId)
    {
      if !PastedRouteFieldsPresent(body) {
        return Err(BadRequest, "Missing required fields");
      }
      var record := Seal(body.website.value, body.username.value, body.password.value, body.phone.value,
                         body.question.value, passwordIv, phoneIv, newId);
      resp := Ok(newId);
    }

    /** `PasswordModel.create(...)` with the two secrets enciphered: the step both POSTs share. */
    method Seal(website: string, username: string, password: string, phone: string, question: string,
                passwordIv: Utils.Iv, phoneIv: Utils.Iv, newId: string)
      returns (record: PasswordRecord)
      requires Valid()
      requires validId(newId) && forall r :: r in records ==> r.id != newId
      modifies this
      ensures Valid()
      ensures record == PasswordRecord(newId, website, username,
                                       Utils.EncryptCard(cipher, key, passwordIv, password),
                                       Utils.EncryptCard(cipher, key, phoneIv, phone),
                                       question, old(clock))
      ensures records == old(records) + [record] && clock == old(clock) + 1
      ensures passwords == old(passwords)[newId := password] && phones == old(phones)[newId := phone]
    {
      var sealedPassword := EncryptPassword(cipher, key, passwordIv, password);
      var sealedPhone := EncryptPassword(cipher, key, phoneIv, phone);
      DecryptPasswordRoundTrip(cipher, key, passwordIv, password);
      DecryptPasswordRoundTrip(cipher, key, phoneIv, phone);
      record := PasswordRecord(newId, website, username, sealedPassword, sealedPhone, question, clock);
      TableAppend(records, cipher, key, validId, passwords, phones, clock, record, password, phone);
      records := records + [record];
      passwords := passwords[newId := password];
      phones := phones[newId := phone];
      clock := clock + 1;
    }

    /** GET of `app/api/passwords/route.ts`: the records of one website, envelopes as stored. */
    method Get(websiteId: Option<string>) returns (resp: Response<seq<PasswordRecord>>)
      ensures !Present(websiteId) ==> resp == Err(BadRequest, "Website ID is required")
      ensures Present(websiteId) ==> resp == Ok(WithWebsite(records, websiteId.value))
    {
      if !Present(websiteId) {
        return Err(BadRequest, "Website ID is required");
      }
      resp := Ok(WithWebsite(records, websiteId.value));
    }

    /**
     * The reveal GET of the pasted route: a missing or malformed id is
     * refused before the table is read, an absent one is 404, and otherwise
     * the password alone is deciphered: it is the one submitted for the id.
     */
    method Reveal(id: Option<string>) returns (resp: Response<string>)
      requires Valid()
      ensures !Present(id) || !validId(id.value) ==> resp == Err(BadRequest, "Invalid password ID")
      ensures Present(id) && validId(id.value) && (forall r :: r in records ==> r.id != id.value) ==>
                resp == Err(NotFound, "Password not found")
      ensures Present(id) && validId(id.value) && (exists r :: r in records && r.id == id.value) ==>
                id.value in passwords && resp == Ok(passwords[id.value])
    {
      if !Present(id) || !validId(id.value) {
        return Err(BadRequest, "Invalid password ID");
      }
      var found := FindById(records, id.value);
      if found.None? {
        return Err(NotFound, "Password not found");
      }
      var record := records[found.value];
      assert record in records;
      var plain := DecryptPassword(cipher, key, record.password);
      resp := if plain.Success? then Ok(plain.value) else Err(ServerError, "Error fetching password");
    }
  }

  /**
   * One complete submission through the route file, as written and as
   * intended, on a fresh store: the written route always fails after
   * validation; the corrected one stores the password so that revealing the
   * new id gives it back.
   */
  method ShadowedModelScenario(cipher: Utils.Cipher, key: Key, validId: string -> bool, body: PasswordBody,
                               passwordIv: Utils.Iv, phoneIv: Utils.Iv, newId: string)
    returns (asWritten: Response<Added>, corrected: Response<Added>, revealed: Response<string>)
    requires Utils.Inverts(cipher) && validId(newId) && newId != "" && RouteFieldsPresent(body)
    ensures asWritten == Err(ServerError, "Failed to add password")
    ensures corrected == Ok(Added(newId, Utils.MaskPasswordNumber(body.password.value)))
    ensures revealed == Ok(body.password.value)
  {
    var store := new PasswordStore(cipher, key, validId);
    asWritten := store.PostAsWritten(body, passwordIv, phoneIv);
    corrected := store.Post(body, passwordIv, phoneIv, newId);
    ghost var stored := store.records[0];
    assert stored in store.records && stored.id == newId;
    revealed := store.Reveal(Some(newId));
  }

  /**
   * The form's body through the route file: refused as incomplete whatever
   * was typed; under the key the route reads, a filled-in form is stored
   * (by the corrected POST).
   */
  method QuestionKeyScenario(cipher: Utils.Cipher, key: Key, validId: string -> bool,
                             website: string, username: string, password: string, phone: string, question: string,
                             passwordIv: Utils.Iv, phoneIv: Utils.Iv, newId: string)
    returns (asSent: Response<Added>, asIntended: Response<Added>)
    requires Utils.Inverts(cipher) && validId(newId)
    requires website != "" && username != "" && password != "" && phone != "" && question != ""
    ensures asSent == Err(BadRequest, "Missing required fields")
    ensures asIntended == Ok(Added(newId, Utils.MaskPasswordNumber(password)))
  {
    var store := new PasswordStore(cipher, key, validId);
    asSent := store.Post(FormBody(website, username, password, phone, question), passwordIv, phoneIv, newId);
    asIntended := store.Post(FormBodyCorrected(website, username, password, phone, question), passwordIv, phoneIv, newId);
  }
}
