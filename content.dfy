/**
 * The content script (content.js): the headers it reads off the GitLab page
 * for the service worker, from the page's `<meta>` tags and from its web
 * storage. The document and the storage objects are inputs.
 */
module Content {
  import opened Wrappers
  import opened Text
  import opened Seqs

  /** A `<meta>` tag's `name` and `content` attributes, absent ones as `None`. */
  datatype MetaTag = MetaTag(name: Option<string>, content: Option<string>)

  const CsrfHeader: string := "X-CSRF-Token"
  const AuthHeader: string := "Authorization"
  const BearerPrefix: string := "Bearer "

  /** The selector `meta[name^="csrf"], meta[name^="token"]`. */
  predicate Matches(t: MetaTag) {
    t.name.Some? && (StartsWith(t.name.value, "csrf") || StartsWith(t.name.value, "token"))
  }

  /** `querySelectorAll`: the matching tags, in document order. */
  function SelectMeta(tags: seq<MetaTag>): (r: seq<MetaTag>)
    ensures forall i :: 0 <= i < |r| ==> Matches(r[i])
    ensures forall t :: t in tags && Matches(t) ==> t in r
    ensures forall t :: t in r ==> t in tags
  {
    if tags == [] then []
    else (if Matches(tags[0]) then [tags[0]] else []) + SelectMeta(tags[1..])
  }

  /** The selection keeps document order. */
  lemma {:induction false} SelectMetaOrdered(tags: seq<MetaTag>)
    ensures IsSubsequence(SelectMeta(tags), tags)
  {
    if tags != [] {
      SelectMetaOrdered(tags[1..]);
      var rest := SelectMeta(tags[1..]);
      if Matches(tags[0]) {
        assert SelectMeta(tags)[1..] == rest;
      } else {
        assert SelectMeta(tags) == rest;
        if rest != [] {
          assert Matches(rest[0]) && rest[0] != tags[0];
        }
      }
    }
  }

  /** The selection keeps every matching tag, as often as it occurs, and nothing else. */
  lemma {:induction false} SelectMetaCounted(tags: seq<MetaTag>)
    ensures forall t :: multiset(SelectMeta(tags))[t] == if Matches(t) then multiset(tags)[t] else 0
  {
    if tags != [] {
      SelectMetaCounted(tags[1..]);
      assert tags == [tags[0]] + tags[1..];
      assert multiset(tags) == multiset{tags[0]} + multiset(tags[1..]);
    }
  }

  /** Which header a tag feeds. */
  datatype Kind = Csrf | Token

  /**
   * A tag with a non-empty name and content feeds the CSRF header when its
   * name mentions `csrf`, and otherwise the bearer token when it mentions `token`.
   */
  predicate OfKind(t: MetaTag, kind: Kind) {
    && t.name.Some? && t.name.value != ""
    && t.content.Some? && t.content.value != ""
    && match kind
       case Csrf => Contains(t.name.value, "csrf")
       case Token => !Contains(t.name.value, "csrf") && Contains(t.name.value, "token")
  }

  /** The content of the last tag of the kind, the one whose assignment is not overwritten. */
  function LastContent(tags: seq<MetaTag>, kind: Kind): (v: Option<string>)
    ensures v.Some? ==> v.value != ""
  {
    if tags == [] then None
    else if OfKind(tags[|tags| - 1], kind) then tags[|tags| - 1].content
    else LastContent(tags[..|tags| - 1], kind)
  }

  /**
   * `LastContent` finds the content of a tag of the kind that no later tag of
   * the kind follows, and finds nothing exactly when there is no tag of the kind.
   */
  lemma {:induction false} LastContentIsLast(tags: seq<MetaTag>, kind: Kind)
    ensures LastContent(tags, kind).None? <==> forall i :: 0 <= i < |tags| ==> !OfKind(tags[i], kind)
    ensures LastContent(tags, kind).Some? ==>
      exists i :: 0 <= i < |tags| && OfKind(tags[i], kind) && tags[i].content == LastContent(tags, kind)
               && forall j :: i < j < |tags| ==> !OfKind(tags[j], kind)
  {
    if tags != [] {
      var n := |tags| - 1;
      var init := tags[..n];
      LastContentIsLast(init, kind);
      if !OfKind(tags[n], kind) {
        assert forall i :: 0 <= i < n ==> tags[i] == init[i];
        if LastContent(init, kind).Some? {
          var i :| 0 <= i < |init| && OfKind(init[i], kind) && init[i].content == LastContent(init, kind)
                  && forall j :: i < j < |init| ==> !OfKind(init[j], kind);
          assert OfKind(tags[i], kind) && tags[i].content == LastContent(tags, kind);
        }
      }
    }
  }

  /** The value of a header, if there is one. */
  function WithHeader(headers: map<string, string>, key: string, value: Option<string>): (h: map<string, string>)
    ensures value.None? ==> h == headers
    ensures value.Some? ==> h == headers[key := value.value]
  {
    match value
    case None => headers
    case Some(v) => headers[key := v]
  }

  /** `Bearer <token>`. */
  function Bearer(token: Option<string>): (h: Option<string>)
    ensures h.Some? <==> token.Some?
    ensures h.Some? ==> h.value == BearerPrefix + token.value
  {
    match token
    case None => None
    case Some(t) => Some(BearerPrefix + t)
  }

  /** The headers the meta tags alone give: the last CSRF tag and the last token tag win. */
  function MetaHeaders(tags: seq<MetaTag>): map<string, string> {
    WithHeader(WithHeader(map[], CsrfHeader, LastContent(tags, Csrf)), AuthHeader, Bearer(LastContent(tags, Token)))
  }

  /** The storage keys a token is looked up under, in the order they are tried. */
  const TokenKeys: seq<string> := ["gl-token", "gitlab_token", "token"]

  /** `getItem(key)` gives a non-empty string. */
  predicate Filled(storage: map<string, string>, key: string) {
    key in storage && storage[key] != ""
  }

  /**
   * `getItem(key)` for the three keys in turn, joined by `||`: the value of
   * the first key that holds a non-empty one. `None` for the storage itself
   * stands for access that throws.
   */
  function StorageToken(storage: map<string, string>): (v: Option<string>)
    ensures v.None? <==> forall i :: 0 <= i < |TokenKeys| ==> !Filled(storage, TokenKeys[i])
    ensures v.Some? ==> exists i :: 0 <= i < |TokenKeys| && Filled(storage, TokenKeys[i])
                                && v.value == storage[TokenKeys[i]]
                                && forall j :: 0 <= j < i ==> !Filled(storage, TokenKeys[j])
  {
    if Filled(storage, TokenKeys[0]) then Some(storage[TokenKeys[0]])
    else if Filled(storage, TokenKeys[1]) then Some(storage[TokenKeys[1]])
    else if Filled(storage, TokenKeys[2]) then Some(storage[TokenKeys[2]])
    else None
  }

  /** The token of a storage that can be read. */
  function StoredToken(storage: Option<map<string, string>>): Option<string> {
    match storage
    case None => None
    case Some(s) => StorageToken(s)
  }

  /**
   * The bearer token sent: the local-storage token, else the last meta token,
   * else the session-storage token.
   */
  function AuthToken(tags: seq<MetaTag>, local: Option<map<string, string>>,
                     session: Option<map<string, string>>): Option<string> {
    if StoredToken(local).Some? then StoredToken(local)
    else if LastContent(SelectMeta(tags), Token).Some? then LastContent(SelectMeta(tags), Token)
    else StoredToken(session)
  }

  /** The headers getPageHeaders answers with. */
  function PageHeaders(tags: seq<MetaTag>, local: Option<map<string, string>>,
                       session: Option<map<string, string>>): (h: map<string, string>)
    ensures h.Keys <= {CsrfHeader, AuthHeader}
    ensures CsrfHeader in h <==> LastContent(SelectMeta(tags), Csrf).Some?
    ensures CsrfHeader in h ==> h[CsrfHeader] == LastContent(SelectMeta(tags), Csrf).value
    ensures AuthHeader in h <==> AuthToken(tags, local, session).Some?
    ensures AuthHeader in h ==> h[AuthHeader] == BearerPrefix + AuthToken(tags, local, session).value
  {
    WithHeader(WithHeader(map[], CsrfHeader, LastContent(SelectMeta(tags), Csrf)), AuthHeader,
               Bearer(AuthToken(tags, local, session)))
  }

  /**
   * The order of precedence for `Authorization`: a local-storage token always
   * wins, a meta token beats a session-storage token, and a storage that
   * cannot be read contributes nothing.
   */
  lemma AuthorizationPrecedence(tags: seq<MetaTag>, local: Option<map<string, string>>,
                                session: Option<map<string, string>>)
    ensures local.Some? && StorageToken(local.value).Some? ==>
      PageHeaders(tags, local, session)[AuthHeader] == BearerPrefix + StorageToken(local.value).value
    ensures StoredToken(local).None? && LastContent(SelectMeta(tags), Token).Some? ==>
      PageHeaders(tags, local, session)[AuthHeader] == BearerPrefix + LastContent(SelectMeta(tags), Token).value
    ensures StoredToken(local).None? && LastContent(SelectMeta(tags), Token).None? ==>
      PageHeaders(tags, local, session) == PageHeaders(tags, local, None) + (
        if StoredToken(session).Some? then map[AuthHeader := BearerPrefix + StoredToken(session).value] else map[])
    ensures PageHeaders(tags, None, None) == MetaHeaders(SelectMeta(tags))
  {
  }

  /** A storage that throws contributes what a storage without any of the keys does. */
  lemma StorageFailureHarmless(tags: seq<MetaTag>, local: Option<map<string, string>>,
                               session: Option<map<string, string>>)
    ensures PageHeaders(tags, None, session) == PageHeaders(tags, Some(map[]), session)
    ensures PageHeaders(tags, local, None) == PageHeaders(tags, local, Some(map[]))
  {
  }

  /** Selection distributes over concatenation. */
  lemma {:induction false} SelectMetaAppend(a: seq<MetaTag>, b: seq<MetaTag>)
    ensures SelectMeta(a + b) == SelectMeta(a) + SelectMeta(b)
  {
    if a == [] {
      assert a + b == b;
    } else {
      assert (a + b)[0] == a[0];
      assert (a + b)[1..] == a[1..] + b;
      SelectMetaAppend(a[1..], b);
    }
  }

  /** The last tag of a kind in `a + b` is the last one in `b`, if `b` has one. */
  lemma {:induction false} LastContentAppend(a: seq<MetaTag>, b: seq<MetaTag>, kind: Kind)
    ensures LastContent(a + b, kind) == if LastContent(b, kind).Some? then LastContent(b, kind) else LastContent(a, kind)
  {
    if b == [] {
      assert a + b == a;
    } else {
      var n := |b| - 1;
      assert (a + b)[..|a + b| - 1] == a + b[..n];
      LastContentAppend(a, b[..n], kind);
    }
  }

  /** Tags of neither kind in the middle do not change the last tag of a kind. */
  lemma LastContentSkip(x: seq<MetaTag>, mid: seq<MetaTag>, y: seq<MetaTag>, kind: Kind)
    requires forall i :: 0 <= i < |mid| ==> !OfKind(mid[i], kind)
    ensures LastContent(x + mid + y, kind) == LastContent(x + y, kind)
  {
    LastContentIsLast(mid, kind);
    LastContentAppend(x + mid, y, kind);
    LastContentAppend(x, y, kind);
    LastContentAppend(x, mid, kind);
  }

  /** The headers depend on the tags only through the last tag of each kind among the selected ones. */
  lemma PageHeadersBySelection(t1: seq<MetaTag>, t2: seq<MetaTag>,
                               local: Option<map<string, string>>, session: Option<map<string, string>>)
    requires LastContent(SelectMeta(t1), Csrf) == LastContent(SelectMeta(t2), Csrf)
    requires LastContent(SelectMeta(t1), Token) == LastContent(SelectMeta(t2), Token)
    ensures PageHeaders(t1, local, session) == PageHeaders(t2, local, session)
  {
  }

  /** A tag without a name or without content, wherever it stands, changes none of the headers. */
  lemma ValuelessTagIgnored(a: seq<MetaTag>, t: MetaTag, b: seq<MetaTag>,
                            local: Option<map<string, string>>, session: Option<map<string, string>>)
    requires t.name.None? || t.name == Some("") || t.content.None? || t.content == Some("")
    ensures PageHeaders(a + [t] + b, local, session) == PageHeaders(a + b, local, session)
  {
    var mid := SelectMeta([t]);
    assert [t][1..] == [];
    assert SelectMeta([t][1..]) == [];
    assert mid == (if Matches(t) then [t] else []) + [];
    SelectMetaAppend(a + [t], b);
    SelectMetaAppend(a, [t]);
    SelectMetaAppend(a, b);
    var sa, sb := SelectMeta(a), SelectMeta(b);
    assert SelectMeta(a + [t] + b) == sa + mid + sb;
    LastContentSkip(sa, mid, sb, Csrf);
    LastContentSkip(sa, mid, sb, Token);
    PageHeadersBySelection(a + [t] + b, a + b, local, session);
  }

  /** Adding one tag to the end changes the meta headers the way the loop body does. */
  lemma MetaHeadersSnoc(tags: seq<MetaTag>, t: MetaTag)
    ensures MetaHeaders(tags + [t]) ==
      if OfKind(t, Csrf) then MetaHeaders(tags)[CsrfHeader := t.content.value]
      else if OfKind(t, Token) then MetaHeaders(tags)[AuthHeader := BearerPrefix + t.content.value]
      else MetaHeaders(tags)
  {
    assert (tags + [t])[..|tags|] == tags;
  }

  /**
   * The two storage steps after the meta tags: the local token replaces the
   * bearer token, the session token only fills an unset one.
   */
  lemma StorageSteps(csrf: Option<string>, metaToken: Option<string>, localToken: Option<string>,
                     sessionToken: Option<string>, metaOnly: map<string, string>,
                     afterLocal: map<string, string>, final: map<string, string>)
    requires metaOnly == WithHeader(WithHeader(map[], CsrfHeader, csrf), AuthHeader, Bearer(metaToken))
    requires afterLocal == if localToken.Some? then metaOnly[AuthHeader := BearerPrefix + localToken.value] else metaOnly
    requires final == if sessionToken.Some? && !(AuthHeader in afterLocal && afterLocal[AuthHeader] != "")
                      then afterLocal[AuthHeader := BearerPrefix + sessionToken.value] else afterLocal
    ensures final == WithHeader(WithHeader(map[], CsrfHeader, csrf), AuthHeader,
      Bearer(if localToken.Some? then localToken else if metaToken.Some? then metaToken else sessionToken))
  {
    var base := WithHeader(map[], CsrfHeader, csrf);
    assert AuthHeader !in base;
    if localToken.None? && metaToken.None? {
      assert afterLocal == base;
    }
  }

  /**
   * getPageHeaders: walk the matching tags setting the CSRF header or the
   * bearer token, then let a local-storage token replace the bearer token, and
   * let a session-storage token fill it in only when it is still unset.
   */
  method GetPageHeaders(tags: seq<MetaTag>, local: Option<map<string, string>>,
                        session: Option<map<string, string>>)
    returns (headers: map<string, string>)
    ensures headers == PageHeaders(tags, local, session)
  {
    headers := map[];
    var metaTags := SelectMeta(tags);
    var k := 0;
    while k < |metaTags|
      invariant 0 <= k <= |metaTags|
      invariant headers == MetaHeaders(metaTags[..k])
    {
      var meta := metaTags[k];
      MetaHeadersSnoc(metaTags[..k], meta);
      assert metaTags[..k + 1] == metaTags[..k] + [meta];
      if meta.name.Some? && meta.name.value != "" && meta.content.Some? && meta.content.value != "" {
        if Contains(meta.name.value, "csrf") {
          headers := headers[CsrfHeader := meta.content.value];
        } else if Contains(meta.name.value, "token") {
          headers := headers[AuthHeader := BearerPrefix + meta.content.value];
        }
      }
      k := k + 1;
    }
    assert metaTags[..k] == metaTags;
    ghost var metaOnly := headers;
    var localToken := StoredToken(local);
    if localToken.Some? {
      headers := headers[AuthHeader := BearerPrefix + localToken.value];
    }
    ghost var afterLocal := headers;
    var sessionToken := StoredToken(session);
    if sessionToken.Some? && !(AuthHeader in headers && headers[AuthHeader] != "") {
      headers := headers[AuthHeader := BearerPrefix + sessionToken.value];
    }
    StorageSteps(LastContent(metaTags, Csrf), LastContent(metaTags, Token), localToken, sessionToken,
                 metaOnly, afterLocal, headers);
  }
}
