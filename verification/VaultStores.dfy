/** What one vendor's credential stores hold, and how one account's secret is
    read from and written into a document that may be shared by providers. */
module VaultStores {
  import opened Wrappers

  /** An opaque credential payload; for claude's OAuth wrapper the two tokens
      are visible, because the vault looks at them. */
  datatype Secret = Oauth(accessToken: string, refreshToken: string, rest: string) | Plain(text: string)

  /** One provider's value inside a shared document; an empty or non-object
      value carries no credential. */
  datatype Entry = Usable(secret: Secret) | Unusable(text: string)

  datatype Document =
    | Whole(secret: Secret)
    | Providers(entries: map<string, Entry>, rest: string)
    | Broken(text: string)

  /** How a vendor keeps its login: claude and whole-file vendors swap the
      document, a per-provider vendor swaps one entry of it. */
  datatype Vendor = Claude | WholeFile | PerProvider(scopes: seq<string>)

  /** The document shapes a vendor's stores can contain. */
  predicate Fits(vendor: Vendor, doc: Option<Document>) {
    doc.Some? ==> if vendor.PerProvider? then !doc.value.Whole? else doc.value.Whole?
  }

  /** `_require_scope`: the one provider both sides of an operation touch. None
      means the request is refused. */
  function RequireScope(vendor: Vendor, scope: Option<string>): Option<string> {
    match vendor
    case Claude => Some("")
    case WholeFile => if scope.Some? && scope.value != "" then None else Some("")
    case PerProvider(scopes) =>
      if scope.None? && |scopes| == 1 then Some(scopes[0])
      else if scope.Some? && scope.value in scopes then scope
      else None
  }

  /** An accepted scope is the one asked for, or the only one there is; a vendor
      without providers takes none, and claude ignores it. */
  lemma RequireScopeIsExact(vendor: Vendor, scope: Option<string>)
    ensures RequireScope(vendor, scope).None? <==>
      || (vendor.WholeFile? && scope.Some? && scope.value != "")
      || (vendor.PerProvider? && scope.Some? && scope.value !in vendor.scopes)
      || (vendor.PerProvider? && scope.None? && |vendor.scopes| != 1)
    ensures RequireScope(vendor, scope).Some? && !vendor.PerProvider? ==> RequireScope(vendor, scope).value == ""
    ensures RequireScope(vendor, scope).Some? && vendor.PerProvider? ==>
      && RequireScope(vendor, scope).value in vendor.scopes
      && (scope.Some? ==> RequireScope(vendor, scope).value == scope.value)
  {
  }

  /** `extract`: a malformed document reads as empty. */
  function Get(vendor: Vendor, doc: Option<Document>, scope: string): Option<Secret> {
    match doc
    case None => None
    case Some(Whole(secret)) => Some(secret)
    case Some(Broken(text)) => None
    case Some(Providers(entries, rest)) =>
      if scope in entries && entries[scope].Usable? then Some(entries[scope].secret) else None
  }

  /** `merge`, or the whole-file write. None means refused: a document that does
      not parse is the user's file and is never overwritten. */
  function Put(vendor: Vendor, doc: Option<Document>, scope: string, secret: Option<Secret>): Option<Option<Document>> {
    if !vendor.PerProvider? then
      Some(if secret.Some? then Some(Whole(secret.value)) else None)
    else if doc.Some? && !doc.value.Providers? then None
    else
      var base := if doc.Some? then doc.value else Providers(map[], "");
      Some(Some(Providers(
        if secret.Some? then base.entries[scope := Usable(secret.value)] else base.entries - {scope}, base.rest)))
  }

  /** The lens laws: what was put is what is got, every other provider's value
      and the rest of the document are carried through, and a second put wins. */
  lemma PutLaws(vendor: Vendor, doc: Option<Document>, scope: string, secret: Option<Secret>,
                other: string, later: Option<Secret>)
    requires Fits(vendor, doc)
    ensures Put(vendor, doc, scope, secret).None? <==> vendor.PerProvider? && doc.Some? && doc.value.Broken?
    ensures var put := Put(vendor, doc, scope, secret);
      put.Some? ==>
        && Fits(vendor, put.value)
        && Get(vendor, put.value, scope) == secret
        && (vendor.PerProvider? && other != scope ==> Get(vendor, put.value, other) == Get(vendor, doc, other))
        && (vendor.PerProvider? && doc.Some? ==> put.value.Some? && put.value.value.rest == doc.value.rest)
        && Put(vendor, put.value, scope, later) == Put(vendor, doc, scope, later)
  {
    var put := Put(vendor, doc, scope, secret);
    if vendor.PerProvider? && put.Some? {
      var base := if doc.Some? then doc.value else Providers(map[], "");
      assert (base.entries - {scope}) - {scope} == base.entries - {scope};
      if secret.Some? {
        assert base.entries[scope := Usable(secret.value)] - {scope} == base.entries - {scope};
      }
      if later.Some? {
        var twice := base.entries[scope := Usable(later.value)];
        assert secret.Some? ==> base.entries[scope := Usable(secret.value)][scope := Usable(later.value)] == twice;
        assert (base.entries - {scope})[scope := Usable(later.value)] == base.entries[scope := Usable(later.value)];
      }
    }
  }

  /** Putting back what is there changes no reading. */
  lemma PutBack(vendor: Vendor, doc: Option<Document>, scope: string, other: string)
    requires Fits(vendor, doc)
    ensures var put := Put(vendor, doc, scope, Get(vendor, doc, scope));
      put.Some? ==> Get(vendor, put.value, other) == Get(vendor, doc, other)
  {
  }

  /** A claude payload whose tokens were emptied in place. */
  predicate Wiped(vendor: Vendor, secret: Option<Secret>) {
    && vendor.Claude? && secret.Some? && secret.value.Oauth?
    && secret.value.accessToken == "" && secret.value.refreshToken == ""
  }

  lemma WipedHasNoToken(vendor: Vendor, secret: Option<Secret>)
    ensures Wiped(vendor, secret) <==> vendor == Claude && exists rest :: secret == Some(Oauth("", "", rest))
  {
    if Wiped(vendor, secret) {
      assert secret == Some(Oauth("", "", secret.value.rest));
    }
  }
}
