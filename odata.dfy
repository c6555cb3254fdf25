/**
 * The action-note query URLs of `generateActionNoteUrlBatches`: one OData URL
 * per unique contact, filtering the ActionNote entity set on the contact's
 * name, the user and an open status. String values are written as OData
 * string literals, which double every single quote (section 5.1.1.6.1 of
 * OData Version 4.01 Part 2: URL Conventions); the parser here reads them back,
 * which shows that the filter names exactly the contact and the user.
 */
module OData {
  import opened Wrappers
  import opened Text
  import opened Dedup

  const BaseUrl := "https://71.112.215.162/fmi/odata/v4/CMHECCRM/ActionNote"
  const SelectFields :=
    "Account,UserRef,Status,Contact,Account_ID,DocDescription,DocNumber,DocType,Purpose,LastAction,DueDate,_ID"
  /** Contacts per batch; every contact still gets a URL of its own. */
  const BatchSize := 5

  const ContactPart := "Contact eq '"
  const UserPart := " and UserRef eq '"
  const StatusPart := " and Status eq 'Open'"
  const FilterPart := "?$filter="
  const SelectPart := "&$select="

  /** `v.replace(/'/g, "''")`. */
  function Escape(v: string): (r: string)
    ensures |r| >= |v|
    ensures '\'' !in v ==> r == v
  {
    if v == [] then []
    else (if v[0] == '\'' then "''" else [v[0]]) + Escape(v[1..])
  }

  /** Reads the inside of a string literal whose opening quote has been read:
      `''` stands for one quote and a lone quote closes it. Gives the value and
      what follows the closing quote, or `None` when the quote is missing. */
  function ReadLiteral(s: string): Option<(string, string)>
    decreases |s|
  {
    if s == [] then None
    else if s[0] == '\'' then
      if |s| >= 2 && s[1] == '\'' then
        match ReadLiteral(s[2..])
        case None => None
        case Some((v, rest)) => Some(("'" + v, rest))
      else Some(("", s[1..]))
    else
      match ReadLiteral(s[1..])
      case None => None
      case Some((v, rest)) => Some(([s[0]] + v, rest))
  }

  /** A doubled quote in front of a literal reads as one quote of the value. */
  lemma ReadDoubledQuote(x: string, w: string, rest: string)
    requires ReadLiteral(x) == Some((w, rest))
    ensures ReadLiteral("''" + x) == Some(("'" + w, rest))
  {
    assert ("''" + x)[2..] == x;
  }

  /** Any other character in front of a literal reads as itself. */
  lemma ReadPlainChar(c: char, x: string, w: string, rest: string)
    requires c != '\'' && ReadLiteral(x) == Some((w, rest))
    ensures ReadLiteral([c] + x) == Some(([c] + w, rest))
  {
    assert ([c] + x)[1..] == x;
  }

  /** Escaping works character by character. */
  lemma EscapeFirst(v: string, rest: string)
    requires v != []
    ensures Escape(v) + "'" + rest ==
            (if v[0] == '\'' then "''" else [v[0]]) + (Escape(v[1..]) + "'" + rest)
  {
  }

  /** One more character of the value, escaped in front of the rest, is read
      back as that character in front of the rest of the value. */
  lemma ReadEscapedStep(v: string, rest: string)
    requires v != []
    requires ReadLiteral(Escape(v[1..]) + "'" + rest) == Some((v[1..], rest))
    ensures ReadLiteral(Escape(v) + "'" + rest) == Some((v, rest))
  {
    var x := Escape(v[1..]) + "'" + rest;
    EscapeFirst(v, rest);
    if v[0] == '\'' {
      ReadDoubledQuote(x, v[1..], rest);
      assert v == "'" + v[1..];
    } else {
      ReadPlainChar(v[0], x, v[1..], rest);
      assert v == [v[0]] + v[1..];
    }
  }

  /** The escaped value, closed by a quote, reads back as the value, provided
      what follows does not start with a quote. */
  lemma {:induction false} ReadEscaped(v: string, rest: string)
    requires rest == [] || rest[0] != '\''
    ensures ReadLiteral(Escape(v) + "'" + rest) == Some((v, rest))
    decreases |v|
  {
    if v == [] {
      assert Escape(v) + "'" + rest == "'" + rest;
      assert ("'" + rest)[1..] == rest;
    } else {
      ReadEscaped(v[1..], rest);
      ReadEscapedStep(v, rest);
    }
  }

  /** The `$filter` expression for one contact. */
  function Filter(name: string, user: string): string {
    ContactPart + Escape(name) + "'" + UserPart + Escape(Trim(user)) + "'" + StatusPart
  }

  /** One query URL. */
  function ActionNoteUrl(name: string, user: string): string {
    BaseUrl + FilterPart + Filter(name, user) + SelectPart + SelectFields
  }

  /** Reads a filter back: the contact name and the user it names. */
  function ParseFilter(f: string): Option<(string, string)> {
    if |f| < |ContactPart| || f[..|ContactPart|] != ContactPart then None
    else
      match ReadLiteral(f[|ContactPart|..])
      case None => None
      case Some((name, rest)) =>
        match ParseUserAndStatus(rest)
        case None => None
        case Some(user) => Some((name, user))
  }

  /** Reads the part of a filter after the contact name: the user it names. */
  function ParseUserAndStatus(rest: string): Option<string> {
    if |rest| < |UserPart| || rest[..|UserPart|] != UserPart then None
    else
      match ReadLiteral(rest[|UserPart|..])
      case None => None
      case Some((user, rest')) => if rest' == StatusPart then Some(user) else None
  }

  /** Reads a URL back: the contact name and the user its filter names. */
  function ParseUrl(url: string): Option<(string, string)> {
    var head, tail := BaseUrl + FilterPart, SelectPart + SelectFields;
    if |url| < |head| + |tail| || url[..|head|] != head || url[|url| - |tail|..] != tail then None
    else ParseFilter(url[|head|..|url| - |tail|])
  }

  /** A filter names exactly the contact and the trimmed user it was built for. */
  lemma FilterRoundTrip(name: string, user: string)
    ensures ParseFilter(Filter(name, user)) == Some((name, Trim(user)))
  {
    var u := Trim(user);
    var rest := UserPart + Escape(u) + "'" + StatusPart;
    FilterSplits(name, user, rest);
    UserReadsBack(u, rest);
    NameReadsBack(name, rest);
  }

  lemma FilterSplits(name: string, user: string, rest: string)
    requires rest == UserPart + Escape(Trim(user)) + "'" + StatusPart
    ensures Filter(name, user) == ContactPart + (Escape(name) + "'" + rest)
  {
  }

  lemma UserReadsBack(u: string, rest: string)
    requires rest == UserPart + Escape(u) + "'" + StatusPart
    ensures ParseUserAndStatus(rest) == Some(u)
  {
    ReadEscaped(u, StatusPart);
    assert rest[..|UserPart|] == UserPart;
    assert rest[|UserPart|..] == Escape(u) + "'" + StatusPart;
  }

  lemma NameReadsBack(name: string, rest: string)
    requires |rest| > 0 && rest[0] != '\''
    ensures ParseFilter(ContactPart + (Escape(name) + "'" + rest)) ==
            match ParseUserAndStatus(rest)
            case None => None
            case Some(user) => Some((name, user))
  {
    var f := ContactPart + (Escape(name) + "'" + rest);
    assert f[..|ContactPart|] == ContactPart;
    assert f[|ContactPart|..] == Escape(name) + "'" + rest;
    ReadEscaped(name, rest);
  }

  /** A URL names exactly the contact and the trimmed user it was built for. */
  lemma UrlRoundTrip(name: string, user: string)
    ensures ParseUrl(ActionNoteUrl(name, user)) == Some((name, Trim(user)))
  {
    var head, tail := BaseUrl + FilterPart, SelectPart + SelectFields;
    var f := Filter(name, user);
    var url := ActionNoteUrl(name, user);
    assert url == head + f + tail;
    assert url[..|head|] == head;
    assert url[|url| - |tail|..] == tail;
    assert url[|head|..|url| - |tail|] == f;
    FilterRoundTrip(name, user);
  }

  /** Different contacts never share a URL, quotes in names included. */
  lemma UrlsDistinguishContacts(name: string, name': string, user: string)
    requires name != name'
    ensures ActionNoteUrl(name, user) != ActionNoteUrl(name', user)
  {
    UrlRoundTrip(name, user);
    UrlRoundTrip(name', user);
  }

  /** The user the filters name: the form's user, or, when that is blank, the
      first contact's `UserRef` (the empty string when there is none). */
  function EffectiveUser(contacts: seq<Contact>, userFilter: string): (u: string)
    ensures Trim(userFilter) != "" ==> u == userFilter
    ensures Trim(userFilter) == "" ==> u == (if contacts == [] then "" else contacts[0].user)
  {
    if Trim(userFilter) == "" then (if contacts == [] then "" else contacts[0].user) else userFilter
  }

  /** The URLs sent for the contacts: one per contact, in contact order. */
  function RequestUrls(contacts: seq<Contact>, userFilter: string): seq<string> {
    var user := EffectiveUser(contacts, userFilter);
    seq(|contacts|, j requires 0 <= j < |contacts| => ActionNoteUrl(contacts[j].name, user))
  }

  /** Each URL names exactly its contact and the trimmed effective user. */
  lemma RequestUrlsNameContacts(contacts: seq<Contact>, userFilter: string)
    ensures var urls := RequestUrls(contacts, userFilter);
      |urls| == |contacts| &&
      forall j :: 0 <= j < |contacts| ==>
        ParseUrl(urls[j]) == Some((contacts[j].name, Trim(EffectiveUser(contacts, userFilter))))
  {
    var user := EffectiveUser(contacts, userFilter);
    forall j | 0 <= j < |contacts|
      ensures ParseUrl(RequestUrls(contacts, userFilter)[j]) == Some((contacts[j].name, Trim(user)))
    {
      UrlRoundTrip(contacts[j].name, user);
    }
  }

  /** The URL for one contact of a batch, its filter built piece by piece. */
  method BuildUrl(name: string, user: string) returns (url: string)
    ensures url == ActionNoteUrl(name, user)
  {
    var contactName := Escape(name);
    var filter := ContactPart + contactName + "'";
    var userFilterValue := Escape(Trim(user));
    filter := filter + UserPart + userFilterValue + "'";
    filter := filter + StatusPart;
    url := BaseUrl + FilterPart + filter + SelectPart + SelectFields;
  }

  /** The URLs of the first `k + 1` contacts extend those of the first `k`
      by the URL of contact `k`. */
  lemma RequestUrlsGrow(contacts: seq<Contact>, userFilter: string, user: string, k: nat, url: string)
    requires user == EffectiveUser(contacts, userFilter)
    requires k < |contacts| && url == ActionNoteUrl(contacts[k].name, user)
    ensures RequestUrls(contacts, userFilter)[..k + 1] == RequestUrls(contacts, userFilter)[..k] + [url]
  {
  }

  /** `generateActionNoteUrlBatches`: the contacts in batches of five, one URL
      per contact, in contact order. */
  method ActionNoteUrls(contacts: seq<Contact>, userFilter: string) returns (urls: seq<string>)
    ensures urls == RequestUrls(contacts, userFilter)
  {
    var user := userFilter;
    if Trim(user) == "" {
      user := if |contacts| > 0 then contacts[0].user else "";
    }
    ghost var want := RequestUrls(contacts, userFilter);
    assert user == EffectiveUser(contacts, userFilter);
    urls := [];
    var i := 0;
    while i < |contacts|
      invariant 0 <= i <= |contacts| && urls == want[..i]
    {
      var batch := contacts[i..if i + BatchSize < |contacts| then i + BatchSize else |contacts|];
      var b := 0;
      while b < |batch|
        invariant 0 <= b <= |batch| && urls == want[..i + b]
      {
        var contact := batch[b];
        assert contact == contacts[i + b];
        var url := BuildUrl(contact.name, user);
        RequestUrlsGrow(contacts, userFilter, user, i + b, url);
        urls := urls + [url];
        b := b + 1;
      }
      i := i + |batch|;
    }
    assert want[..i] == want;
  }
}
