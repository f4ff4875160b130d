/**
 * The voter session store (src/lib/auth.ts): a bearer token and the last
 * phone number, kept under two fixed keys of the browser's local storage.
 * Local storage is a finite map from keys to strings; during server-side
 * rendering there is no `window`, and then every getter answers `null`
 * and every setter does nothing.
 */
module SessionStore {
  import opened Common

  const TokenKey: string := "voting_app_token"
  const PhoneKey: string := "voting_app_phone"

  /** The rendering environment: whether `window` exists, and local storage. */
  datatype Browser = Browser(hasWindow: bool, storage: map<string, string>)

  function Read(b: Browser, key: string): (r: Option<string>)
    ensures r.Some? <==> b.hasWindow && key in b.storage
    ensures r.Some? ==> r.value == b.storage[key]
  {
    if b.hasWindow && key in b.storage then Some(b.storage[key]) else None
  }

  /** `setToken`. */
  function SetToken(b: Browser, token: string): (r: Browser)
    ensures r.hasWindow == b.hasWindow
    ensures b.hasWindow ==> GetToken(r) == Some(token) && IsAuthenticated(r)
    ensures GetPhone(r) == GetPhone(b)
    ensures forall k :: k != TokenKey ==> Read(r, k) == Read(b, k)
    ensures !b.hasWindow ==> r == b
  {
    if b.hasWindow then b.(storage := b.storage[TokenKey := token]) else b
  }

  /** `getToken`. */
  function GetToken(b: Browser): Option<string> {
    Read(b, TokenKey)
  }

  /** `removeToken`: drops the token and the phone together. */
  function RemoveToken(b: Browser): (r: Browser)
    ensures GetToken(r) == None && GetPhone(r) == None && !IsAuthenticated(r)
    ensures r.hasWindow == b.hasWindow
    ensures forall k :: k != TokenKey && k != PhoneKey ==> Read(r, k) == Read(b, k)
    ensures b.hasWindow ==> r.storage.Keys == b.storage.Keys - {TokenKey, PhoneKey}
    ensures !b.hasWindow ==> r == b
  {
    if b.hasWindow then b.(storage := b.storage - {TokenKey, PhoneKey}) else b
  }

  /** `isAuthenticated`. */
  predicate IsAuthenticated(b: Browser) {
    GetToken(b) != None
  }

  /** `setPhone`. */
  function SetPhone(b: Browser, phone: string): (r: Browser)
    ensures r.hasWindow == b.hasWindow
    ensures b.hasWindow ==> GetPhone(r) == Some(phone)
    ensures GetToken(r) == GetToken(b)
    ensures forall k :: k != PhoneKey ==> Read(r, k) == Read(b, k)
    ensures !b.hasWindow ==> r == b
  {
    if b.hasWindow then b.(storage := b.storage[PhoneKey := phone]) else b
  }

  /** `getPhone`. */
  function GetPhone(b: Browser): Option<string> {
    Read(b, PhoneKey)
  }

  /** Being authenticated means exactly that a token is stored and a window exists. */
  lemma AuthenticatedIffToken(b: Browser)
    ensures IsAuthenticated(b) <==> b.hasWindow && TokenKey in b.storage
  {
  }

  /** Clearing is idempotent. */
  lemma RemoveTokenIdempotent(b: Browser)
    ensures RemoveToken(RemoveToken(b)) == RemoveToken(b)
  {
  }

  /** The two keys are independent: setting one, in either order, never disturbs the other. */
  lemma SettersCommute(b: Browser, token: string, phone: string)
    ensures SetPhone(SetToken(b, token), phone) == SetToken(SetPhone(b, phone), token)
  {
    if b.hasWindow {
      assert TokenKey != PhoneKey;
    }
  }

  /** Without a window nothing is read and nothing is stored. */
  lemma NoWindowIsInert(b: Browser, token: string, phone: string)
    requires !b.hasWindow
    ensures GetToken(b) == None && GetPhone(b) == None && !IsAuthenticated(b)
    ensures SetToken(b, token) == b && SetPhone(b, phone) == b && RemoveToken(b) == b
  {
  }

  /** A login followed by a logout leaves no session behind, whatever was stored before. */
  lemma LoginThenLogout(b: Browser, token: string, phone: string)
    ensures var r := RemoveToken(SetPhone(SetToken(b, token), phone));
            GetToken(r) == None && GetPhone(r) == None
  {
  }
}
