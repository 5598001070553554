/**
 * The card API (`app/api/cards/route.ts`): an owner-scoped table of card
 * records with create (POST), list (GET), delete (DELETE) and expiry update
 * (PATCH). The card number and the CVV are stored as envelopes; the owner
 * id and the expiry date are stored as they were sent.
 */
module CardRoute {
  import opened Wrappers
  import opened Hex
  import opened Text
  import opened KeyConfig
  import opened Api
  import Utils

  /**
   * The route's own `encryptCard`: `cipher.update(text, "utf-8", "hex")` and
   * `cipher.final("hex")` are hex-encoded one after the other. It writes
   * the same envelope as `encryptCard` in `lib/utils.ts`.
   */
  function EncryptCard(c: Utils.Cipher, key: Key, iv: Utils.Iv, text: string): (envelope: string)
    ensures envelope == Utils.EncryptCard(c, key, iv, text)
  {
    EncodeAppend(c.update(key, iv, text), c.final(key, iv, text));
    Encode(iv) + ":" + (Encode(c.update(key, iv, text)) + Encode(c.final(key, iv, text)))
  }

  /** A document of the card collection. */
  datatype CardRecord = CardRecord(
    id: string,
    userId: string,
    cardNumber: string,  // envelope
    expiryDate: string,
    cvv: string,         // envelope
    createdAt: nat)

  /** The `card` object POST and PATCH answer with: no CVV. */
  datatype CardView = CardView(id: string, expiryDate: string, cardNumber: string)

  /** One entry of the GET answer: no CVV. */
  datatype CardSummary = CardSummary(id: string, cardNumber: string, expiryDate: string, createdAt: nat)

  /** The filter `{ _id: cardId, userId }` of DELETE and PATCH. */
  predicate Owns(r: CardRecord, cardId: string, userId: string) {
    r.id == cardId && r.userId == userId
  }

  /** The stored card number has a second colon-separated piece. */
  predicate HasCipherSegment(r: CardRecord) {
    |SplitOnColon(r.cardNumber)| >= 2
  }

  predicate AllHaveCipherSegment(cards: seq<CardRecord>) {
    forall i :: 0 <= i < |cards| ==> HasCipherSegment(cards[i])
  }

  /** `createdAt` strictly increases along the table. */
  predicate Chronological(cards: seq<CardRecord>) {
    forall i, j :: 0 <= i < j < |cards| ==> cards[i].createdAt < cards[j].createdAt
  }

  predicate UniqueIds(cards: seq<CardRecord>) {
    forall i, j :: 0 <= i < j < |cards| ==> cards[i].id != cards[j].id
  }

  /**
   * The mask GET and PATCH show: `**** **** **** ` and the last four
   * characters of the second piece of the stored envelope, that is of the
   * ciphertext hex, not of the card number.
   */
  function StoredMask(envelope: string): string
    requires |SplitOnColon(envelope)| >= 2
  {
    Utils.MaskCardNumber(SplitOnColon(envelope)[1])
  }

  /** The projection of the GET `.map`. */
  function Summary(r: CardRecord): CardSummary
    requires HasCipherSegment(r)
  {
    CardSummary(r.id, StoredMask(r.cardNumber), r.expiryDate, r.createdAt)
  }

  /**
   * `Card.find({ userId }).sort({ createdAt: -1 })` then the `.map`: the
   * table is kept in creation order, so the owner's cards are read from
   * the back.
   */
  function Listing(cards: seq<CardRecord>, userId: string): seq<CardSummary>
    requires AllHaveCipherSegment(cards)
  {
    if cards == [] then []
    else
      var last := cards[|cards| - 1];
      assert last in cards;
      (if last.userId == userId then [Summary(last)] else []) + Listing(cards[..|cards| - 1], userId)
  }

  /** `findOne({ _id: cardId, userId })`: the first owner-matched record. */
  function FindOwned(cards: seq<CardRecord>, cardId: string, userId: string): (k: Option<nat>)
    ensures k.Some? ==> k.value < |cards| && Owns(cards[k.value], cardId, userId)
    ensures k.Some? ==> forall i :: 0 <= i < k.value ==> !Owns(cards[i], cardId, userId)
    ensures k.None? ==> forall i :: 0 <= i < |cards| ==> !Owns(cards[i], cardId, userId)
  {
    if cards == [] then None
    else if Owns(cards[0], cardId, userId) then Some(0)
    else
      match FindOwned(cards[1..], cardId, userId)
      case None => None
      case Some(k) => Some(k + 1)
  }

  /** The list holds exactly the summaries of the owner's records. */
  lemma {:induction false} ListingMembers(cards: seq<CardRecord>, userId: string, s: CardSummary)
    requires AllHaveCipherSegment(cards)
    ensures s in Listing(cards, userId) <==>
            exists r :: r in cards && r.userId == userId && s == Summary(r)
  {
    if cards != [] {
      var n := |cards| - 1;
      var front, last := cards[..n], cards[n];
      assert cards == front + [last];
      assert last in cards;
      var head := if last.userId == userId then [Summary(last)] else [];
      assert Listing(cards, userId) == head + Listing(front, userId);
      ListingMembers(front, userId, s);
      if exists r :: r in cards && r.userId == userId && s == Summary(r) {
        var r :| r in cards && r.userId == userId && s == Summary(r);
        if r != last {
          assert r in front;
        }
      }
    }
  }

  /** `createdAt` strictly decreases along the list. */
  predicate NewestFirst(l: seq<CardSummary>) {
    forall i, j :: 0 <= i < j < |l| ==> l[i].createdAt > l[j].createdAt
  }

  /** An entry newer than every entry of a newest-first list can go in front of it. */
  lemma NewestFirstPrepend(s: CardSummary, rest: seq<CardSummary>)
    requires NewestFirst(rest)
    requires forall x :: x in rest ==> x.createdAt < s.createdAt
    ensures NewestFirst([s] + rest)
  {
    var l := [s] + rest;
    forall i, j | 0 <= i < j < |l| ensures l[i].createdAt > l[j].createdAt {
      assert l[j] == rest[j - 1] && rest[j - 1] in rest;
      if 0 < i {
        assert l[i] == rest[i - 1];
      }
    }
  }

  /** The last record is listed first, then the listing of the records before it. */
  lemma ListingLast(cards: seq<CardRecord>, userId: string)
    requires AllHaveCipherSegment(cards) && cards != []
    ensures AllHaveCipherSegment(cards[..|cards| - 1])
    ensures HasCipherSegment(cards[|cards| - 1])
    ensures Listing(cards, userId) ==
              (if cards[|cards| - 1].userId == userId then [Summary(cards[|cards| - 1])] else [])
              + Listing(cards[..|cards| - 1], userId)
  {
  }

  /** The list is ordered newest first. */
  lemma {:induction false} ListingNewestFirst(cards: seq<CardRecord>, userId: string)
    requires AllHaveCipherSegment(cards) && Chronological(cards)
    ensures NewestFirst(Listing(cards, userId))
  {
    if cards != [] {
      var n := |cards| - 1;
      var front, last := cards[..n], cards[n];
      ListingLast(cards, userId);
      assert Chronological(front);
      ListingNewestFirst(front, userId);
      forall r | r in front ensures r.createdAt < last.createdAt {
        var i :| 0 <= i < n && front[i] == r;
        assert cards[i] == r;
      }
      ListingCreatedBefore(front, userId, last.createdAt);
      if last.userId == userId {
        NewestFirstPrepend(Summary(last), Listing(front, userId));
      } else {
        assert Listing(cards, userId) == Listing(front, userId);
      }
    }
  }

  /** Listed entries are no newer than the records they come from. */
  lemma {:induction false} ListingCreatedBefore(cards: seq<CardRecord>, userId: string, bound: nat)
    requires AllHaveCipherSegment(cards)
    requires forall r :: r in cards ==> r.createdAt < bound
    ensures forall s :: s in Listing(cards, userId) ==> s.createdAt < bound
  {
    if cards != [] {
      var n := |cards| - 1;
      assert cards[n] in cards;
      assert forall r :: r in cards[..n] ==> r in cards;
      ListingCreatedBefore(cards[..n], userId, bound);
    }
  }

  /**
   * The inconsistency between the two masks: POST shows the tail of the
   * plaintext number, GET and PATCH show the tail of the ciphertext hex,
   * which is made of lower-case hex digits whatever the number was.
   */
  lemma ListedMaskIsCiphertextTail(c: Utils.Cipher, key: Key, iv: Utils.Iv, number: string)
    ensures |SplitOnColon(Utils.EncryptCard(c, key, iv, number))| >= 2
    ensures StoredMask(Utils.EncryptCard(c, key, iv, number)) == Utils.MaskCardNumber(Encode(c.Ciphertext(key, iv, number)))
    ensures IsLowerHex(StoredMask(Utils.EncryptCard(c, key, iv, number))[|Utils.MaskPrefix|..])
  {
    Utils.EncryptCardShape(c, key, iv, number);
    MaskedHexTail(Encode(c.Ciphertext(key, iv, number)));
  }

  /** The shown tail of a masked hex string is hex. */
  lemma MaskedHexTail(hex: string)
    requires IsLowerHex(hex)
    ensures IsLowerHex(Utils.MaskCardNumber(hex)[|Utils.MaskPrefix|..])
  {
    var tail := Utils.LastFour(hex);
    assert Utils.MaskCardNumber(hex)[|Utils.MaskPrefix|..] == tail;
    if |hex| > 4 {
      LowerHexSuffix(hex, |hex| - 4);
    }
  }

  lemma LowerHexSuffix(s: string, k: nat)
    requires IsLowerHex(s) && k <= |s|
    ensures IsLowerHex(s[k..])
  {
    assert forall i :: 0 <= i < |s| - k ==> s[k..][i] == s[k + i];
  }

  /** A stored record deciphers to what was submitted for it. */
  ghost predicate Sealed(r: CardRecord, c: Utils.Cipher, key: Key,
                         numbers: map<string, string>, cvvs: map<string, string>)
  {
    && r.id in numbers && r.id in cvvs
    && Utils.DecryptCard(c, key, r.cardNumber) == Success(numbers[r.id])
    && Utils.DecryptCard(c, key, r.cvv) == Success(cvvs[r.id])
  }

  /** What the invariant says of each record on its own. */
  ghost predicate RecordOk(r: CardRecord, c: Utils.Cipher, key: Key, validId: string -> bool,
                           numbers: map<string, string>, cvvs: map<string, string>, clock: nat)
  {
    validId(r.id) && r.createdAt < clock && HasCipherSegment(r) && Sealed(r, c, key, numbers, cvvs)
  }

  ghost predicate AllRecordsOk(cards: seq<CardRecord>, c: Utils.Cipher, key: Key, validId: string -> bool,
                               numbers: map<string, string>, cvvs: map<string, string>, clock: nat)
  {
    forall r :: r in cards ==> RecordOk(r, c, key, validId, numbers, cvvs, clock)
  }

  /** The invariant of the card table. */
  ghost predicate TableOk(cards: seq<CardRecord>, c: Utils.Cipher, key: Key, validId: string -> bool,
                          numbers: map<string, string>, cvvs: map<string, string>, clock: nat)
  {
    && AllRecordsOk(cards, c, key, validId, numbers, cvvs, clock)
    && AllHaveCipherSegment(cards)
    && Chronological(cards)
    && UniqueIds(cards)
  }

  /** Recording the plaintexts of another id and advancing the clock leave a record's facts true. */
  lemma RecordOkFrame(r: CardRecord, c: Utils.Cipher, key: Key, validId: string -> bool,
                      numbers: map<string, string>, cvvs: map<string, string>, clock: nat,
                      id: string, number: string, cvv: string)
    requires RecordOk(r, c, key, validId, numbers, cvvs, clock) && r.id != id
    ensures RecordOk(r, c, key, validId, numbers[id := number], cvvs[id := cvv], clock + 1)
  {
  }

  /** Appending a later record with a new id keeps the table chronological with unique ids. */
  lemma OrderAppend(cards: seq<CardRecord>, record: CardRecord)
    requires Chronological(cards) && UniqueIds(cards)
    requires forall r :: r in cards ==> r.id != record.id && r.createdAt < record.createdAt
    ensures Chronological(cards + [record]) && UniqueIds(cards + [record])
  {
    var cards' := cards + [record];
    forall i, j | 0 <= i < j < |cards'|
      ensures cards'[i].createdAt < cards'[j].createdAt && cards'[i].id != cards'[j].id
    {
      if j < |cards| {
        assert cards'[i] == cards[i] && cards'[j] == cards[j];
      } else {
        assert cards'[i] in cards;
      }
    }
  }

  /** POST keeps the invariant. */
  lemma TableAppend(cards: seq<CardRecord>, c: Utils.Cipher, key: Key, validId: string -> bool,
                    numbers: map<string, string>, cvvs: map<string, string>, clock: nat,
                    record: CardRecord, number: string, cvv: string)
    requires TableOk(cards, c, key, validId, numbers, cvvs, clock)
    requires forall r :: r in cards ==> r.id != record.id
    requires validId(record.id) && record.createdAt == clock && HasCipherSegment(record)
    requires Utils.DecryptCard(c, key, record.cardNumber) == Success(number)
    requires Utils.DecryptCard(c, key, record.cvv) == Success(cvv)
    ensures TableOk(cards + [record], c, key, validId, numbers[record.id := number], cvvs[record.id := cvv], clock + 1)
  {
    var cards', numbers', cvvs' := cards + [record], numbers[record.id := number], cvvs[record.id := cvv];
    forall r | r in cards' ensures RecordOk(r, c, key, validId, numbers', cvvs', clock + 1) {
      if r != record {
        assert r in cards;
        RecordOkFrame(r, c, key, validId, numbers, cvvs, clock, record.id, number, cvv);
      }
    }
    forall r | r in cards ensures r.id != record.id && r.createdAt < record.createdAt {
      assert RecordOk(r, c, key, validId, numbers, cvvs, clock);
    }
    OrderAppend(cards, record);
  }

  /** Where the `i`th record after removing the `k`th one stood before. */
  function Skip(i: nat, k: nat): nat {
    if i < k then i else i + 1
  }

  /** Removing the `k`th record keeps the table chronological with unique ids, and keeps only old records. */
  lemma OrderRemove(cards: seq<CardRecord>, k: nat)
    requires Chronological(cards) && UniqueIds(cards) && k < |cards|
    ensures Chronological(cards[..k] + cards[k + 1..]) && UniqueIds(cards[..k] + cards[k + 1..])
    ensures forall r :: r in cards[..k] + cards[k + 1..] ==> r in cards && r.id != cards[k].id
  {
    var cards' := cards[..k] + cards[k + 1..];
    forall i | 0 <= i < |cards'| ensures cards'[i] == cards[Skip(i, k)] {
    }
    forall r | r in cards' ensures r in cards && r.id != cards[k].id {
      var i :| 0 <= i < |cards'| && cards'[i] == r;
      assert cards[Skip(i, k)] == r;
    }
    forall i, j | 0 <= i < j < |cards'|
      ensures cards'[i].createdAt < cards'[j].createdAt && cards'[i].id != cards'[j].id
    {
      assert cards'[i] == cards[Skip(i, k)] && cards'[j] == cards[Skip(j, k)];
    }
  }

  /** DELETE keeps the invariant. */
  lemma TableRemove(cards: seq<CardRecord>, c: Utils.Cipher, key: Key, validId: string -> bool,
                    numbers: map<string, string>, cvvs: map<string, string>, clock: nat, k: nat)
    requires TableOk(cards, c, key, validId, numbers, cvvs, clock)
    requires k < |cards|
    ensures TableOk(cards[..k] + cards[k + 1..], c, key, validId, numbers, cvvs, clock)
  {
    OrderRemove(cards, k);
  }

  /** PATCH keeps the invariant: only the expiry date changes. */
  lemma TableSetExpiry(cards: seq<CardRecord>, c: Utils.Cipher, key: Key, validId: string -> bool,
                       numbers: map<string, string>, cvvs: map<string, string>, clock: nat, k: nat, expiry: string)
    requires TableOk(cards, c, key, validId, numbers, cvvs, clock)
    requires k < |cards|
    ensures TableOk(cards[k := cards[k].(expiryDate := expiry)], c, key, validId, numbers, cvvs, clock)
  {
    var cards' := cards[k := cards[k].(expiryDate := expiry)];
    assert cards[k] in cards;
    forall r | r in cards' ensures RecordOk(r, c, key, validId, numbers, cvvs, clock) && HasCipherSegment(r) {
      var i :| 0 <= i < |cards'| && cards'[i] == r;
      assert cards[i] in cards;
    }
  }

  /**
   * The card collection. Valid() says: every stored card number and CVV
   * deciphers to what was submitted for it (`numbers`, `cvvs`), ids are
   * well-formed and unique, and `createdAt` follows the table order.
   */
  class CardStore {
    const cipher: Utils.Cipher
    const key: Key
    /** `mongoose.Types.ObjectId.isValid`, left uninterpreted. */
    const validId: string -> bool
    var cards: seq<CardRecord>
    /** The next `createdAt` stamp. */
    var clock: nat
    ghost var numbers: map<string, string>
    ghost var cvvs: map<string, string>

    ghost predicate Valid()
      reads this
    {
      Utils.Inverts(cipher) && TableOk(cards, cipher, key, validId, numbers, cvvs, clock)
    }

    /** The module loaded: the key passed the guard. */
    constructor (cipher: Utils.Cipher, key: Key, validId: string -> bool)
      requires Utils.Inverts(cipher)
      ensures Valid()
      ensures this.cipher == cipher && this.key == key && this.validId == validId
      ensures cards == [] && clock == 0 && numbers == map[] && cvvs == map[]
    {
      this.cipher := cipher;
      this.key := key;
      this.validId := validId;
      cards := [];
      clock := 0;
      numbers := map[];
      cvvs := map[];
    }

    /**
     * POST: all four fields are required; the card number and the CVV are
     * enciphered under their own IVs; the answer masks the tail of the
     * plaintext number and carries no CVV. `newId` is the `_id` the
     * database assigns.
     */
    method Post(userId: Option<string>, cardNumber: Option<string>, expiryDate: Option<string>, cvv: Option<string>,
                numberIv: Utils.Iv, cvvIv: Utils.Iv, newId: string)
      returns (resp: Response<CardView>)
      requires Valid()
      requires validId(newId) && forall i :: 0 <= i < |cards| ==> cards[i].id != newId
      modifies this
      ensures Valid()
      ensures !(Present(userId) && Present(cardNumber) && Present(expiryDate) && Present(cvv)) ==>
                && resp == Err(BadRequest, "Missing required fields")
                && cards == old(cards) && clock == old(clock)
                && numbers == old(numbers) && cvvs == old(cvvs)
      ensures Present(userId) && Present(cardNumber) && Present(expiryDate) && Present(cvv) ==>
                && cards == old(cards) + [CardRecord(newId, userId.value,
                                                     Utils.EncryptCard(cipher, key, numberIv, cardNumber.value),
                                                     expiryDate.value,
                                                     Utils.EncryptCard(cipher, key, cvvIv, cvv.value),
                                                     old(clock))]
                && clock == old(clock) + 1
                && numbers == old(numbers)[newId := cardNumber.value]
                && cvvs == old(cvvs)[newId := cvv.value]
                && resp == Ok(CardView(newId, expiryDate.value, Utils.MaskCardNumber(cardNumber.value)))
    {
      if !(Present(userId) && Present(cardNumber) && Present(expiryDate) && Present(cvv)) {
        return Err(BadRequest, "Missing required fields");
      }
      var sealedNumber := EncryptCard(cipher, key, numberIv, cardNumber.value);
      var sealedCvv := EncryptCard(cipher, key, cvvIv, cvv.value);
      Utils.DecryptCardRoundTrip(cipher, key, numberIv, cardNumber.value);
      Utils.DecryptCardRoundTrip(cipher, key, cvvIv, cvv.value);
      Utils.EncryptCardShape(cipher, key, numberIv, cardNumber.value);
      var record := CardRecord(newId, userId.value, sealedNumber, expiryDate.value, sealedCvv, clock);
      TableAppend(cards, cipher, key, validId, numbers, cvvs, clock, record, cardNumber.value, cvv.value);
      cards := cards + [record];
      numbers := numbers[newId := cardNumber.value];
      cvvs := cvvs[newId := cvv.value];
      clock := clock + 1;
      resp := Ok(CardView(newId, expiryDate.value, "**** **** **** " + Utils.LastFour(cardNumber.value)));
    }

    /** GET: the owner's cards, newest first, masked from the ciphertext, without CVV. */
    method Get(userId: Option<string>) returns (resp: Response<seq<CardSummary>>)
      requires Valid()
      ensures !Present(userId) ==> resp == Err(BadRequest, "User ID is required")
      ensures Present(userId) ==> resp == Ok(Listing(cards, userId.value))
    {
      if !Present(userId) {
        return Err(BadRequest, "User ID is required");
      }
      resp := Ok(Listing(cards, userId.value));
    }

    /**
     * DELETE: both parameters are required, then the id format is checked,
     * both before the table is touched; then the owner-matched record is
     * removed, or 404.
     */
    method Delete(cardId: Option<string>, userId: Option<string>) returns (resp: Response<()>)
      requires Valid()
      modifies this
      ensures Valid()
      ensures clock == old(clock) && numbers == old(numbers) && cvvs == old(cvvs)
      ensures !(Present(cardId) && Present(userId)) ==>
                resp == Err(BadRequest, "Card ID and User ID are required") && cards == old(cards)
      ensures Present(cardId) && Present(userId) && !validId(cardId.value) ==>
                resp == Err(BadRequest, "Invalid Card ID") && cards == old(cards)
      ensures Present(cardId) && Present(userId) && validId(cardId.value) ==>
                var found := FindOwned(old(cards), cardId.value, userId.value);
                && (found.None? ==> resp == Err(NotFound, "Card not found") && cards == old(cards))
                && (found.Some? ==> && resp == Ok(())
                                    && cards == old(cards)[..found.value] + old(cards)[found.value + 1..]
                                    && forall r :: r in cards ==> r.id != cardId.value)
    {
      if !(Present(cardId) && Present(userId)) {
        return Err(BadRequest, "Card ID and User ID are required");
      }
      if !validId(cardId.value) {
        return Err(BadRequest, "Invalid Card ID");
      }
      var found := FindOwned(cards, cardId.value, userId.value);
      if found.None? {
        return Err(NotFound, "Card not found");
      }
      var k := found.value;
      TableRemove(cards, cipher, key, validId, numbers, cvvs, clock, k);
      OrderRemove(cards, k);
      cards := cards[..k] + cards[k + 1..];
      resp := Ok(());
    }

    /**
     * PATCH: all three fields are required; the owner-matched record gets the
     * new expiry date and nothing else changes. There is no id-format check:
     * an id that is not an ObjectId makes the query throw, which answers 500.
     */
    method Patch(cardId: Option<string>, userId: Option<string>, expiryDate: Option<string>)
      returns (resp: Response<CardView>)
      requires Valid()
      modifies this
      ensures Valid()
      ensures clock == old(clock) && numbers == old(numbers) && cvvs == old(cvvs)
      ensures !(Present(cardId) && Present(userId) && Present(expiryDate)) ==>
                resp == Err(BadRequest, "Missing required fields") && cards == old(cards)
      ensures Present(cardId) && Present(userId) && Present(expiryDate) && !validId(cardId.value) ==>
                resp == Err(ServerError, "Failed to update card") && cards == old(cards)
      ensures Present(cardId) && Present(userId) && Present(expiryDate) && validId(cardId.value) ==>
                var found := FindOwned(old(cards), cardId.value, userId.value);
                && (found.None? ==> resp == Err(NotFound, "Card not found") && cards == old(cards))
                && (found.Some? ==>
                      var k := found.value;
                      && cards == old(cards)[k := old(cards)[k].(expiryDate := expiryDate.value)]
                      && resp == Ok(CardView(cardId.value, expiryDate.value, StoredMask(old(cards)[k].cardNumber))))
    {
      if !(Present(cardId) && Present(userId) && Present(expiryDate)) {
        return Err(BadRequest, "Missing required fields");
      }
      if !validId(cardId.value) {
        return Err(ServerError, "Failed to update card");
      }
      var found := FindOwned(cards, cardId.value, userId.value);
      if found.None? {
        return Err(NotFound, "Card not found");
      }
      var k := found.value;
      var updated := cards[k].(expiryDate := expiryDate.value);
      TableSetExpiry(cards, cipher, key, validId, numbers, cvvs, clock, k, expiryDate.value);
      cards := cards[k := updated];
      resp := Ok(CardView(updated.id, updated.expiryDate, StoredMask(updated.cardNumber)));
    }
  }

  /** A table of one record lists just that record, when it is the owner's. */
  lemma ListingOfOne(r: CardRecord, userId: string)
    requires HasCipherSegment(r) && r.userId == userId
    ensures AllHaveCipherSegment([r])
    ensures Listing([r], userId) == [Summary(r)]
  {
    ListingLast([r], userId);
    assert [r][..0] == [];
  }

  /**
   * The two masks on a fresh store: the POST answer masks the tail of the
   * number as typed, the listing masks the tail of the stored ciphertext hex.
   */
  method MaskScenario(cipher: Utils.Cipher, key: Key, validId: string -> bool,
                      userId: string, number: string, expiry: string, cvv: string,
                      numberIv: Utils.Iv, cvvIv: Utils.Iv, newId: string)
    returns (posted: Response<CardView>, listed: Response<seq<CardSummary>>)
    requires Utils.Inverts(cipher) && validId(newId)
    requires userId != "" && number != "" && expiry != "" && cvv != ""
    ensures posted == Ok(CardView(newId, expiry, Utils.MaskCardNumber(number)))
    ensures listed == Ok([CardSummary(newId, Utils.MaskCardNumber(Encode(cipher.Ciphertext(key, numberIv, number))), expiry, 0)])
  {
    var store := new CardStore(cipher, key, validId);
    posted := store.Post(Some(userId), Some(number), Some(expiry), Some(cvv), numberIv, cvvIv, newId);
    ghost var record := store.cards[0];
    assert store.cards == [record];
    ListedMaskIsCiphertextTail(cipher, key, numberIv, number);
    ListingOfOne(record, userId);
    listed := store.Get(Some(userId));
  }

  /**
   * A card's later life on a fresh store: a PATCH by its owner answers with
   * the new expiry, a DELETE by another user misses, the owner's DELETE
   * removes it, and the owner's listing is then empty.
   */
  method UpdateDeleteScenario(cipher: Utils.Cipher, key: Key, validId: string -> bool,
                              userId: string, otherUser: string, number: string, expiry: string, cvv: string,
                              newExpiry: string, numberIv: Utils.Iv, cvvIv: Utils.Iv, newId: string)
    returns (patched: Response<CardView>, stranger: Response<()>, deleted: Response<()>,
             relisted: Response<seq<CardSummary>>)
    requires Utils.Inverts(cipher) && validId(newId) && newId != ""
    requires userId != "" && otherUser != "" && otherUser != userId
    requires number != "" && expiry != "" && cvv != "" && newExpiry != ""
    ensures patched.Ok? && patched.body.id == newId && patched.body.expiryDate == newExpiry
    ensures stranger == Err(NotFound, "Card not found")
    ensures deleted == Ok(())
    ensures relisted == Ok([])
  {
    var store := new CardStore(cipher, key, validId);
    var posted := store.Post(Some(userId), Some(number), Some(expiry), Some(cvv), numberIv, cvvIv, newId);
    ghost var record := store.cards[0];
    assert store.cards == [record] && Owns(record, newId, userId);
    patched := store.Patch(Some(newId), Some(userId), Some(newExpiry));
    assert store.cards == [record.(expiryDate := newExpiry)];
    stranger := store.Delete(Some(newId), Some(otherUser));
    assert store.cards == [record.(expiryDate := newExpiry)];
    deleted := store.Delete(Some(newId), Some(userId));
    assert store.cards == [];
    relisted := store.Get(Some(userId));
  }
}
