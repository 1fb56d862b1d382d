/**
  The browser's key/value store as the task view uses it: the session token,
  the signed-in user's e-mail, and one completion overlay per user under the
  key `completed_tasks_<email>`.
 */
module Storage {
  import opened Tasks

  /**
    A stored value. The session entries are text; an overlay is kept as its
    list of ids, standing for the JSON array text the view writes.
   */
  datatype Entry = Text(text: string) | IdList(ids: seq<Id>)

  type Store = map<string, Entry>

  const TokenKey: string := "token"
  const EmailKey: string := "user_email"
  const OverlayPrefix: string := "completed_tasks_"
  const Guest: string := "guest"

  /**
    `localStorage.getItem("user_email") || "guest"`: the stored e-mail when it
    is present and non-empty, otherwise the fallback name.
   */
  function UserName(st: Store): (name: string)
    ensures name != ""
    ensures EmailKey in st && st[EmailKey].Text? && st[EmailKey].text != "" ==> name == st[EmailKey].text
    ensures !(EmailKey in st && st[EmailKey].Text? && st[EmailKey].text != "") ==> name == Guest
  {
    if EmailKey in st && st[EmailKey].Text? && st[EmailKey].text != "" then st[EmailKey].text else Guest
  }

  /**
    `getCompletedKey()`: the overlay key of the current user. It always starts
    with the overlay prefix, so it is never the token or e-mail key.
   */
  function CompletedKey(st: Store): (key: string)
    ensures |key| > |OverlayPrefix| && key[..|OverlayPrefix|] == OverlayPrefix
    ensures key[|OverlayPrefix|..] == UserName(st)
    ensures key != TokenKey && key != EmailKey
  {
    var key := OverlayPrefix + UserName(st);
    assert key[0] == 'c';
    key
  }

  /** Different user names never share an overlay key. */
  lemma KeyPerUser(a: Store, b: Store)
    requires UserName(a) != UserName(b)
    ensures CompletedKey(a) != CompletedKey(b)
  {
  }

  /**
    The fallback key is shared: a store with no (or an empty) e-mail and a
    store whose e-mail is the literal text "guest" use the same overlay.
   */
  lemma GuestKeyShared(a: Store, b: Store)
    requires EmailKey !in a || a[EmailKey] == Text("")
    requires EmailKey in b && b[EmailKey] == Text(Guest)
    ensures CompletedKey(a) == CompletedKey(b) == "completed_tasks_guest"
  {
  }

  /** Writing or removing any other key leaves the overlay key where it was. */
  lemma KeyIgnoresOtherKeys(st: Store, k: string, v: Entry)
    requires k != EmailKey
    ensures CompletedKey(st[k := v]) == CompletedKey(st)
    ensures CompletedKey(st - {k}) == CompletedKey(st)
  {
  }

  /**
    The `completed` initialiser: the overlay stored under the current key, or
    the empty list when there is none.
   */
  function LoadCompleted(st: Store): (ids: seq<Id>)
    ensures CompletedKey(st) !in st ==> ids == []
  {
    var key := CompletedKey(st);
    if key in st && st[key].IdList? then st[key].ids else []
  }

  /** The overlay-save effect: the current list replaces the entry under the current key. */
  function SaveCompleted(st: Store, completed: seq<Id>): (r: Store)
    ensures r.Keys == st.Keys + {CompletedKey(st)}
    ensures forall k :: k in st && k != CompletedKey(st) ==> r[k] == st[k]
  {
    st[CompletedKey(st) := IdList(completed)]
  }

  /** The persisted overlay of the current user is `completed`. */
  predicate Persisted(st: Store, completed: seq<Id>) {
    CompletedKey(st) in st && st[CompletedKey(st)] == IdList(completed)
  }

  /** Saving and reloading gives back the saved list. */
  lemma SaveThenLoad(st: Store, completed: seq<Id>)
    ensures Persisted(SaveCompleted(st, completed), completed)
    ensures LoadCompleted(SaveCompleted(st, completed)) == completed
  {
  }

  /** `localStorage.removeItem("token")`: only the token entry goes. */
  function WithoutToken(st: Store): (r: Store)
    ensures r.Keys == st.Keys - {TokenKey}
    ensures forall k :: k in r ==> r[k] == st[k]
  {
    st - {TokenKey}
  }

  /** Removing the token keeps the user's persisted overlay. */
  lemma WithoutTokenKeepsOverlay(st: Store, completed: seq<Id>)
    requires Persisted(st, completed)
    ensures Persisted(WithoutToken(st), completed)
    ensures LoadCompleted(WithoutToken(st)) == completed
  {
  }
}
