/**
 * The records the report reconciles. A field that is missing from the host's
 * JSON is the empty string here (the source tests fields for truthiness), and
 * a date is a normalised day number counted from 1970-01-01. A sale `Date`
 * is `None` when it is absent or unparseable and `Some(0)` when it is `null`
 * (`new Date(null)` is 1970-01-01); a `null` `DueDate` is `None`.
 */
module Records {
  import opened Wrappers
  import opened Text

  /** One sale row of the host's sales query (`_ID`, `Contact`, `AccountNickname`,
      `Account_ID`, `UserRef`, `Date`, `Description`, `Status`, `ANExclude`). */
  datatype Sale = Sale(
    id: string,
    contact: string,
    accountNickname: string,
    accountId: string,
    userRef: string,
    date: Option<int>,
    description: string,
    status: string,
    excluded: bool)

  /** One open action note (`_ID`, `Contact`, `UserRef`, `DueDate`, `LastAction`,
      `DocDescription`). */
  datatype ActionNote = ActionNote(
    id: string,
    contact: string,
    userRef: string,
    dueDate: Option<int>,
    lastAction: Option<int>,
    docDescription: string)

  /** Sales data as the host sends it, once parsed: an OData object whose
      `value` is an array, a bare array, or anything else. */
  datatype SalesData = Enveloped(sales: seq<Sale>) | Bare(sales: seq<Sale>) | Malformed

  /** `new Date(a) > new Date(b)`: false as soon as either side is not a valid
      date, since every comparison with NaN is false. */
  predicate Later(a: Option<int>, b: Option<int>) {
    a.Some? && b.Some? && a.value > b.value
  }

  /** The key that pairs notes with sales: `lower(contact) + "-" + lower(userRef)`,
      the literal joined string. */
  function OwnerKey(contact: string, userRef: string): string {
    Lower(contact) + "-" + Lower(userRef)
  }

  /** Two different (contact, user) pairs can share one key when a name holds
      a hyphen: "a-b" with "c" and "a" with "b-c" both give "a-b-c". */
  lemma OwnerKeyCollides()
    ensures ("a-b", "c") != ("a", "b-c")
    ensures OwnerKey("a-b", "c") == OwnerKey("a", "b-c") == "a-b-c"
  {
    assert Lower("a-b") == "a-b";
    assert Lower("b-c") == "b-c";
    assert Lower("a") == "a";
    assert Lower("c") == "c";
  }

  /** Case does not matter to the key: folding either name first gives the same key. */
  lemma {:induction false} OwnerKeyIgnoresCase(contact: string, userRef: string)
    ensures OwnerKey(Lower(contact), Lower(userRef)) == OwnerKey(contact, userRef)
  {
    assert forall c: char :: LowerChar(LowerChar(c)) == LowerChar(c);
    assert Lower(Lower(contact)) == Lower(contact);
    assert Lower(Lower(userRef)) == Lower(userRef);
  }
}
