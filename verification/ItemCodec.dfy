/**
  Vault items and the encrypted form the server keeps: every string encrypted
  under a random IV of its own, types and match rules as numbers. One string
  that does not decrypt rejects the whole item.
 */
module ItemCodec {
  import opened Calendar
  import opened Wrappers
  import E = Encryption
  import T = Timestamps

  // ---------- items ----------

  datatype UriMatch = Domain | Host | StartsWith | Exact | RegularExpression | Never

  datatype LoginUri = LoginUri(uri: string, match_: UriMatch)

  datatype LoginData = LoginData(
    username: Option<string>, password: Option<string>, totp: Option<string>, uris: seq<LoginUri>)

  datatype ItemKind = Login(login: LoginData) | SecureNote | Card | Identity

  datatype FieldValue = Text(text: string) | Hidden(text: string) | Boolean(flag: bool)

  datatype CustomField = CustomField(name: string, value: FieldValue, linkedId: Option<string>)

  datatype VaultItem = VaultItem(
    id: int, name: string, kind: ItemKind, favorite: bool, folder: Option<int>, createdAt: int, updatedAt: int,
    fields: seq<CustomField>, notes: Option<string>)

  // ---------- the wire form ----------

  datatype CipherUri = CipherUri(uri: Option<string>, match_: Option<nat>)

  datatype CipherLogin = CipherLogin(
    username: Option<string>, password: Option<string>, totp: Option<string>, uris: seq<CipherUri>)

  datatype CipherField = CipherField(ftype: nat, name: Option<string>, value: Option<string>)

  datatype CipherRequest = CipherRequest(
    atype: nat, folder: Option<int>, name: string, notes: Option<string>, favorite: bool, login: Option<CipherLogin>,
    fields: seq<CipherField>)

  /** A request as the server sends it back, with an id and its dates. */
  datatype CipherResponse = CipherResponse(id: int, body: CipherRequest, revision: string, creation: Option<string>)

  // ---------- encryption ----------

  /** Primitives, keys and a source of IVs. */
  datatype Context = Context(p: E.Primitives, k: E.Keys, ivs: nat -> E.Iv)

  ghost predicate Sound(c: Context) {
    E.Permutes(c.p, c.k.enc) && E.Utf8(c.p)
  }

  /** Encrypts with the n-th IV. */
  function EncryptStr(c: Context, n: nat, text: string): string { E.EncryptStr(c.p, c.k, c.ivs(n), text) }

  function DecryptStr(c: Context, s: string): Option<string> { E.DecryptStr(c.p, c.k, s) }

  function EncryptOption(c: Context, n: nat, text: Option<string>): (Option<string>, nat) {
    if text.Some? then (Some(EncryptStr(c, n, text.value)), n + 1) else (None, n)
  }

  function MatchCode(m: UriMatch): nat {
    match m
    case Domain => 0
    case Host => 1
    case StartsWith => 2
    case Exact => 3
    case RegularExpression => 4
    case Never => 5
  }

  function EncryptUris(c: Context, n: nat, uris: seq<LoginUri>): (r: (seq<CipherUri>, nat))
    ensures |r.0| == |uris|
  {
    if uris == [] then ([], n) else
    var (rest, m) := EncryptUris(c, n, uris[..|uris| - 1]);
    var u := uris[|uris| - 1];
    (rest + [CipherUri(Some(EncryptStr(c, m, u.uri)), Some(MatchCode(u.match_)))], m + 1)
  }

  function EncryptLogin(c: Context, n: nat, l: LoginData): (CipherLogin, nat) {
    var (username, n1) := EncryptOption(c, n, l.username);
    var (password, n2) := EncryptOption(c, n1, l.password);
    var (totp, n3) := EncryptOption(c, n2, l.totp);
    var (uris, n4) := EncryptUris(c, n3, l.uris);
    (CipherLogin(username, password, totp, uris), n4)
  }

  function EncryptField(c: Context, n: nat, f: CustomField): (CipherField, nat) {
    var name := Some(EncryptStr(c, n, f.name));
    match f.value
    case Text(v) => (CipherField(0, name, Some(EncryptStr(c, n + 1, v))), n + 2)
    case Hidden(v) => (CipherField(1, name, Some(EncryptStr(c, n + 1, v))), n + 2)
    case Boolean(b) => (CipherField(2, name, Some(if b then "true" else "false")), n + 1)
  }

  function EncryptFields(c: Context, n: nat, fields: seq<CustomField>): (r: (seq<CipherField>, nat))
    ensures |r.0| == |fields|
  {
    if fields == [] then ([], n) else
    var (rest, m) := EncryptFields(c, n, fields[..|fields| - 1]);
    var (f, m') := EncryptField(c, m, fields[|fields| - 1]);
    (rest + [f], m')
  }

  function KindCode(k: ItemKind): nat {
    match k
    case Login(_) => 1
    case SecureNote => 2
    case Card => 3
    case Identity => 4
  }

  function EncryptItem(c: Context, n: nat, item: VaultItem): (CipherRequest, nat) {
    var name := EncryptStr(c, n, item.name);
    var (notes, n1) := EncryptOption(c, n + 1, item.notes);
    var (login, n2) := if item.kind.Login? then var (l, m) := EncryptLogin(c, n1, item.kind.login); (Some(l), m) else (None, n1);
    var (fields, n3) := EncryptFields(c, n2, item.fields);
    (CipherRequest(KindCode(item.kind), item.folder, name, notes, item.favorite, login, fields), n3)
  }

  // ---------- decryption ----------

  /** Absent stays absent; present must decrypt. */
  function DecryptOption(c: Context, s: Option<string>): Option<Option<string>> {
    match s
    case None => Some(None)
    case Some(x) => match DecryptStr(c, x)
      case None => None
      case Some(t) => Some(Some(t))
  }

  /** Absent reads as empty. */
  function DecryptOrEmpty(c: Context, s: Option<string>): Option<string> {
    match DecryptOption(c, s)
    case None => None
    case Some(None) => Some("")
    case Some(Some(t)) => Some(t)
  }

  function MatchOf(code: Option<nat>): UriMatch {
    match code
    case Some(n) =>
      if n == 1 then Host else if n == 2 then StartsWith else if n == 3 then Exact
      else if n == 4 then RegularExpression else if n == 5 then Never else Domain
    case None => Domain
  }

  function DecryptUris(c: Context, uris: seq<CipherUri>): Option<seq<LoginUri>> {
    if uris == [] then Some([]) else
    match (DecryptUris(c, uris[..|uris| - 1]), DecryptOrEmpty(c, uris[|uris| - 1].uri))
    case (Some(rest), Some(uri)) => Some(rest + [LoginUri(uri, MatchOf(uris[|uris| - 1].match_))])
    case _ => None
  }

  function DecryptLogin(c: Context, login: Option<CipherLogin>): Option<LoginData> {
    match login
    case None => Some(LoginData(None, None, None, []))
    case Some(l) =>
      match (DecryptOption(c, l.username), DecryptOption(c, l.password), DecryptOption(c, l.totp), DecryptUris(c, l.uris))
      case (Some(username), Some(password), Some(totp), Some(uris)) => Some(LoginData(username, password, totp, uris))
      case _ => None
  }

  function DecryptValue(c: Context, f: CipherField): Option<FieldValue> {
    if f.ftype == 2 then Some(Boolean(f.value == Some("true")))
    else match DecryptOrEmpty(c, f.value)
      case None => None
      case Some(v) => Some(if f.ftype == 1 then Hidden(v) else Text(v))
  }

  function DecryptField(c: Context, f: CipherField): Option<CustomField> {
    match (DecryptOrEmpty(c, f.name), DecryptValue(c, f))
    case (Some(name), Some(value)) => Some(CustomField(name, value, None))
    case _ => None
  }

  function DecryptFields(c: Context, fields: seq<CipherField>): Option<seq<CustomField>> {
    if fields == [] then Some([]) else
    match (DecryptFields(c, fields[..|fields| - 1]), DecryptField(c, fields[|fields| - 1]))
    case (Some(rest), Some(f)) => Some(rest + [f])
    case _ => None
  }

  function DecryptKind(c: Context, r: CipherRequest): Option<ItemKind> {
    if r.atype == 1 then
      match DecryptLogin(c, r.login)
      case None => None
      case Some(l) => Some(Login(l))
    else if r.atype == 2 then Some(SecureNote)
    else if r.atype == 3 then Some(Card)
    else if r.atype == 4 then Some(Identity)
    else None
  }

  function UpdatedAt(r: CipherResponse): int {
    if T.ParseIso8601(r.revision).Some? then T.ParseIso8601(r.revision).value else 0
  }

  function CreatedAt(r: CipherResponse): int {
    if r.creation.Some? && T.ParseIso8601(r.creation.value).Some? then T.ParseIso8601(r.creation.value).value else UpdatedAt(r)
  }

  function DecryptCipher(c: Context, r: CipherResponse): Option<VaultItem> {
    match (DecryptStr(c, r.body.name), DecryptOption(c, r.body.notes), DecryptKind(c, r.body), DecryptFields(c, r.body.fields))
    case (Some(name), Some(notes), Some(kind), Some(fields)) =>
      Some(VaultItem(r.id, name, kind, r.body.favorite, r.body.folder, CreatedAt(r), UpdatedAt(r), fields, notes))
    case _ => None
  }

  // ---------- the round trip ----------

  lemma StrRoundTrip(c: Context, n: nat, text: string)
    requires Sound(c)
    ensures DecryptStr(c, EncryptStr(c, n, text)) == Some(text)
  {
    E.DecryptStrEncryptStr(c.p, c.k, c.ivs(n), text);
  }

  lemma OptionRoundTrip(c: Context, n: nat, text: Option<string>)
    requires Sound(c)
    ensures DecryptOption(c, EncryptOption(c, n, text).0) == Some(text)
  {
    if text.Some? {
      StrRoundTrip(c, n, text.value);
    }
  }

  lemma {:induction false} UrisRoundTrip(c: Context, n: nat, uris: seq<LoginUri>)
    requires Sound(c)
    ensures DecryptUris(c, EncryptUris(c, n, uris).0) == Some(uris)
  {
    hide Sound, EncryptStr, DecryptStr;
    if uris != [] {
      var front, u := uris[..|uris| - 1], uris[|uris| - 1];
      var (rest, m) := EncryptUris(c, n, front);
      UrisRoundTrip(c, n, front);
      StrRoundTrip(c, m, u.uri);
      var last := CipherUri(Some(EncryptStr(c, m, u.uri)), Some(MatchCode(u.match_)));
      assert (rest + [last])[..|rest|] == rest;
      assert uris == front + [u];
    }
  }

  lemma LoginRoundTrip(c: Context, n: nat, l: LoginData)
    requires Sound(c)
    ensures DecryptLogin(c, Some(EncryptLogin(c, n, l).0)) == Some(l)
  {
    hide Sound, EncryptOption, DecryptOption, EncryptUris, DecryptUris;
    var (username, n1) := EncryptOption(c, n, l.username);
    var (password, n2) := EncryptOption(c, n1, l.password);
    var (totp, n3) := EncryptOption(c, n2, l.totp);
    OptionRoundTrip(c, n, l.username);
    OptionRoundTrip(c, n1, l.password);
    OptionRoundTrip(c, n2, l.totp);
    UrisRoundTrip(c, n3, l.uris);
  }

  /** A custom field without its link. */
  function Unlinked(f: CustomField): CustomField { f.(linkedId := None) }

  function AllUnlinked(fields: seq<CustomField>): (r: seq<CustomField>)
    ensures |r| == |fields|
  {
    seq(|fields|, i requires 0 <= i < |fields| => Unlinked(fields[i]))
  }

  lemma FieldRoundTrip(c: Context, n: nat, f: CustomField)
    requires Sound(c)
    ensures DecryptField(c, EncryptField(c, n, f).0) == Some(Unlinked(f))
  {
    hide Sound, EncryptStr, DecryptStr;
    StrRoundTrip(c, n, f.name);
    if !f.value.Boolean? {
      StrRoundTrip(c, n + 1, f.value.text);
    }
  }

  lemma {:induction false} FieldsRoundTrip(c: Context, n: nat, fields: seq<CustomField>)
    requires Sound(c)
    ensures DecryptFields(c, EncryptFields(c, n, fields).0) == Some(AllUnlinked(fields))
  {
    hide Sound, EncryptField, DecryptField;
    if fields != [] {
      var front, f := fields[..|fields| - 1], fields[|fields| - 1];
      var (rest, m) := EncryptFields(c, n, front);
      var last := EncryptField(c, m, f).0;
      FieldsRoundTrip(c, n, front);
      FieldRoundTrip(c, m, f);
      assert (rest + [last])[..|rest|] == rest;
      assert AllUnlinked(fields) == AllUnlinked(front) + [Unlinked(f)];
    } else {
      assert AllUnlinked(fields) == [];
    }
  }

  /** What the client reads back of an item it stored: everything but the links of custom fields. */
  lemma ItemRoundTrip(c: Context, n: nat, item: VaultItem, id: int, revision: string, creation: Option<string>)
    requires Sound(c)
    ensures var r := CipherResponse(id, EncryptItem(c, n, item).0, revision, creation);
      DecryptCipher(c, r) == Some(item.(
        id := id, fields := AllUnlinked(item.fields), createdAt := CreatedAt(r), updatedAt := UpdatedAt(r)))
  {
    hide Sound, EncryptStr, DecryptStr, EncryptOption, DecryptOption, EncryptLogin, DecryptLogin, EncryptFields, DecryptFields, CreatedAt, UpdatedAt;
    StrRoundTrip(c, n, item.name);
    OptionRoundTrip(c, n + 1, item.notes);
    var n1 := EncryptOption(c, n + 1, item.notes).1;
    var n2 := n1;
    if item.kind.Login? {
      LoginRoundTrip(c, n1, item.kind.login);
      n2 := EncryptLogin(c, n1, item.kind.login).1;
    }
    FieldsRoundTrip(c, n2, item.fields);
  }

  lemma UnlinkedAlready(fields: seq<CustomField>)
    ensures AllUnlinked(fields) == fields <==> forall i :: 0 <= i < |fields| ==> fields[i].linkedId.None?
  {
    if forall i :: 0 <= i < |fields| ==> fields[i].linkedId.None? {
      assert forall i :: 0 <= i < |fields| ==> AllUnlinked(fields)[i] == fields[i];
    } else {
      var i :| 0 <= i < |fields| && fields[i].linkedId.Some?;
      assert AllUnlinked(fields)[i] != fields[i];
    }
  }

  /** Encrypted and decrypted, the fields come back whole exactly when none of them was linked. */
  lemma FieldsSurvive(c: Context, n: nat, fields: seq<CustomField>)
    requires Sound(c)
    ensures DecryptFields(c, EncryptFields(c, n, fields).0) == Some(fields) <==>
      forall i :: 0 <= i < |fields| ==> fields[i].linkedId.None?
  {
    FieldsRoundTrip(c, n, fields);
    UnlinkedAlready(fields);
  }

  // ---------- all or nothing ----------

  function OptionStrings(s: Option<string>): set<string> { if s.Some? then {s.value} else {} }

  function UriStrings(uris: seq<CipherUri>): set<string> {
    set i | 0 <= i < |uris| && uris[i].uri.Some? :: uris[i].uri.value
  }

  function LoginStrings(login: Option<CipherLogin>): set<string> {
    match login
    case None => {}
    case Some(l) => OptionStrings(l.username) + OptionStrings(l.password) + OptionStrings(l.totp) + UriStrings(l.uris)
  }

  function FieldStrings(f: CipherField): set<string> {
    OptionStrings(f.name) + if f.ftype == 2 then {} else OptionStrings(f.value)
  }

  function FieldsStrings(fields: seq<CipherField>): set<string> {
    set i, s | 0 <= i < |fields| && s in FieldStrings(fields[i]) :: s
  }

  /** Every string of a response that has to decrypt; a login is looked at only for logins. */
  function Secrets(r: CipherRequest): set<string> {
    {r.name} + OptionStrings(r.notes) + (if r.atype == 1 then LoginStrings(r.login) else {}) + FieldsStrings(r.fields)
  }

  ghost predicate Decrypts(c: Context, strings: set<string>) {
    forall s :: s in strings ==> DecryptStr(c, s).Some?
  }

  lemma {:induction false} UrisDecrypt(c: Context, uris: seq<CipherUri>)
    ensures DecryptUris(c, uris).Some? <==> Decrypts(c, UriStrings(uris))
  {
    hide DecryptStr;
    if uris != [] {
      var n := |uris| - 1;
      UrisDecrypt(c, uris[..n]);
      assert uris == uris[..n] + [uris[n]];
      assert UriStrings(uris) == UriStrings(uris[..n]) + OptionStrings(uris[n].uri) by {
        assert forall i :: 0 <= i < n ==> uris[..n][i] == uris[i];
      }
    }
  }

  lemma {:induction false} FieldsDecrypt(c: Context, fields: seq<CipherField>)
    ensures DecryptFields(c, fields).Some? <==> Decrypts(c, FieldsStrings(fields))
  {
    hide DecryptStr;
    if fields != [] {
      var n := |fields| - 1;
      FieldsDecrypt(c, fields[..n]);
      assert fields == fields[..n] + [fields[n]];
      assert FieldsStrings(fields) == FieldsStrings(fields[..n]) + FieldStrings(fields[n]) by {
        assert forall i :: 0 <= i < n ==> fields[..n][i] == fields[i];
      }
    }
  }

  /** An item is shown exactly when its type is known and every one of its strings decrypts. */
  lemma AllOrNothing(c: Context, r: CipherResponse)
    ensures DecryptCipher(c, r).Some? <==> 1 <= r.body.atype <= 4 && Decrypts(c, Secrets(r.body))
  {
    hide DecryptStr, DecryptUris, DecryptFields, CreatedAt, UpdatedAt, UriStrings, FieldsStrings;
    FieldsDecrypt(c, r.body.fields);
    if r.body.login.Some? {
      UrisDecrypt(c, r.body.login.value.uris);
    }
  }

  // ---------- where each string goes ----------

  function OptionTexts(s: Option<string>): seq<string> { if s.Some? then [s.value] else [] }

  function UriTexts(uris: seq<LoginUri>): seq<string> {
    if uris == [] then [] else UriTexts(uris[..|uris| - 1]) + [uris[|uris| - 1].uri]
  }

  function FieldTexts(f: CustomField): seq<string> { if f.value.Boolean? then [f.name] else [f.name, f.value.text] }

  function FieldsTexts(fields: seq<CustomField>): seq<string> {
    if fields == [] then [] else FieldsTexts(fields[..|fields| - 1]) + FieldTexts(fields[|fields| - 1])
  }

  /** The strings of an item that are encrypted, in the order in which they are. */
  function Texts(item: VaultItem): seq<string> {
    [item.name] + OptionTexts(item.notes)
    + (if item.kind.Login? then LoginTexts(item.kind.login) else [])
    + FieldsTexts(item.fields)
  }

  function LoginTexts(l: LoginData): seq<string> {
    OptionTexts(l.username) + OptionTexts(l.password) + OptionTexts(l.totp) + UriTexts(l.uris)
  }

  function SentUris(uris: seq<CipherUri>): seq<string> {
    if uris == [] then [] else SentUris(uris[..|uris| - 1]) + OptionTexts(uris[|uris| - 1].uri)
  }

  function SentField(f: CipherField): seq<string> { OptionTexts(f.name) + if f.ftype == 2 then [] else OptionTexts(f.value) }

  function SentFields(fields: seq<CipherField>): seq<string> {
    if fields == [] then [] else SentFields(fields[..|fields| - 1]) + SentField(fields[|fields| - 1])
  }

  function SentLogin(l: CipherLogin): seq<string> {
    OptionTexts(l.username) + OptionTexts(l.password) + OptionTexts(l.totp) + SentUris(l.uris)
  }

  /** The strings of a request that are encrypted, field by field in the same order. */
  function Sent(r: CipherRequest): seq<string> {
    [r.name] + OptionTexts(r.notes) + (if r.login.Some? then SentLogin(r.login.value) else []) + SentFields(r.fields)
  }

  /** String i is the encryption of text i under IV number n + i, and the next unused number is next. */
  ghost predicate InTurn(c: Context, n: nat, texts: seq<string>, sent: seq<string>, next: nat) {
    && |sent| == |texts| && next == n + |texts|
    && forall i :: 0 <= i < |texts| ==> sent[i] == EncryptStr(c, n + i, texts[i])
  }

  lemma TurnOver(c: Context, n: nat, a: seq<string>, x: seq<string>, m: nat, b: seq<string>, y: seq<string>, next: nat)
    requires InTurn(c, n, a, x, m) && InTurn(c, m, b, y, next)
    ensures InTurn(c, n, a + b, x + y, next)
  {
    hide EncryptStr;
    forall i | 0 <= i < |a + b| ensures (x + y)[i] == EncryptStr(c, n + i, (a + b)[i]) {
      if i >= |a| {
        assert y[i - |a|] == EncryptStr(c, m + (i - |a|), b[i - |a|]);
      }
    }
  }

  lemma OptionInTurn(c: Context, n: nat, text: Option<string>)
    ensures var (s, m) := EncryptOption(c, n, text); InTurn(c, n, OptionTexts(text), OptionTexts(s), m)
  {
    hide EncryptStr;
  }

  lemma {:induction false} UrisInTurn(c: Context, n: nat, uris: seq<LoginUri>)
    ensures var (s, m) := EncryptUris(c, n, uris); InTurn(c, n, UriTexts(uris), SentUris(s), m)
  {
    hide EncryptStr;
    if uris != [] {
      var front, u := uris[..|uris| - 1], uris[|uris| - 1];
      var (rest, m) := EncryptUris(c, n, front);
      var last := CipherUri(Some(EncryptStr(c, m, u.uri)), Some(MatchCode(u.match_)));
      UrisInTurn(c, n, front);
      assert (rest + [last])[..|rest|] == rest;
      TurnOver(c, n, UriTexts(front), SentUris(rest), m, [u.uri], [EncryptStr(c, m, u.uri)], m + 1);
    }
  }

  lemma FieldInTurn(c: Context, n: nat, f: CustomField)
    ensures var (s, m) := EncryptField(c, n, f); InTurn(c, n, FieldTexts(f), SentField(s), m)
  {
    hide EncryptStr;
  }

  lemma {:induction false} FieldsInTurn(c: Context, n: nat, fields: seq<CustomField>)
    ensures var (s, m) := EncryptFields(c, n, fields); InTurn(c, n, FieldsTexts(fields), SentFields(s), m)
  {
    if fields != [] {
      var front, f := fields[..|fields| - 1], fields[|fields| - 1];
      var (rest, m) := EncryptFields(c, n, front);
      var (last, m') := EncryptField(c, m, f);
      FieldsInTurn(c, n, front);
      FieldInTurn(c, m, f);
      assert (rest + [last])[..|rest|] == rest;
      hide EncryptField, FieldTexts, SentField, InTurn;
      TurnOver(c, n, FieldsTexts(front), SentFields(rest), m, FieldTexts(f), SentField(last), m');
    }
  }

  lemma LoginInTurn(c: Context, n: nat, l: LoginData)
    ensures var (s, m) := EncryptLogin(c, n, l); InTurn(c, n, LoginTexts(l), SentLogin(s), m)
  {
    hide InTurn, EncryptOption, EncryptUris, OptionTexts, UriTexts, SentUris;
    var (username, n1) := EncryptOption(c, n, l.username);
    var (password, n2) := EncryptOption(c, n1, l.password);
    var (totp, n3) := EncryptOption(c, n2, l.totp);
    var (uris, n4) := EncryptUris(c, n3, l.uris);
    OptionInTurn(c, n, l.username);
    OptionInTurn(c, n1, l.password);
    OptionInTurn(c, n2, l.totp);
    UrisInTurn(c, n3, l.uris);
    TurnOver(c, n, OptionTexts(l.username), OptionTexts(username), n1, OptionTexts(l.password), OptionTexts(password), n2);
    TurnOver(c, n, OptionTexts(l.username) + OptionTexts(l.password), OptionTexts(username) + OptionTexts(password), n2,
             OptionTexts(l.totp), OptionTexts(totp), n3);
    TurnOver(c, n, OptionTexts(l.username) + OptionTexts(l.password) + OptionTexts(l.totp),
             OptionTexts(username) + OptionTexts(password) + OptionTexts(totp), n3, UriTexts(l.uris), SentUris(uris), n4);
  }

  /**
    Every string of an item goes into the field of the request that bears its
    name, encrypted under an IV of its own: the IVs used are numbers n, n + 1
    and so on, one for each string.
   */
  lemma OwnIvs(c: Context, n: nat, item: VaultItem)
    ensures var (r, next) := EncryptItem(c, n, item); InTurn(c, n, Texts(item), Sent(r), next)
  {
    var (notes, n1) := EncryptOption(c, n + 1, item.notes);
    NameAndNotesInTurn(c, n, item);
    hide InTurn, EncryptStr, EncryptOption, EncryptFields, OptionTexts, LoginTexts, SentLogin, FieldsTexts, SentFields, EncryptLogin;
    var texts, sent := [item.name] + OptionTexts(item.notes), [EncryptStr(c, n, item.name)] + OptionTexts(notes);
    if item.kind.Login? {
      var (login, n2) := EncryptLogin(c, n1, item.kind.login);
      LoginInTurn(c, n1, item.kind.login);
      TurnOver(c, n, texts, sent, n1, LoginTexts(item.kind.login), SentLogin(login), n2);
      FieldsLast(c, n, texts + LoginTexts(item.kind.login), sent + SentLogin(login), n2, item.fields);
    } else {
      assert texts + [] == texts && sent + [] == sent;
      FieldsLast(c, n, texts, sent, n1, item.fields);
    }
  }

  lemma NameInTurn(c: Context, n: nat, name: string)
    ensures InTurn(c, n, [name], [EncryptStr(c, n, name)], n + 1)
  {
    hide EncryptStr;
  }

  lemma NameAndNotesInTurn(c: Context, n: nat, item: VaultItem)
    ensures var (notes, n1) := EncryptOption(c, n + 1, item.notes);
      InTurn(c, n, [item.name] + OptionTexts(item.notes), [EncryptStr(c, n, item.name)] + OptionTexts(notes), n1)
  {
    hide InTurn, EncryptStr, EncryptOption, OptionTexts;
    var (notes, n1) := EncryptOption(c, n + 1, item.notes);
    NameInTurn(c, n, item.name);
    OptionInTurn(c, n + 1, item.notes);
    TurnOver(c, n, [item.name], [EncryptStr(c, n, item.name)], n + 1, OptionTexts(item.notes), OptionTexts(notes), n1);
  }

  lemma FieldsLast(c: Context, n: nat, texts: seq<string>, sent: seq<string>, m: nat, fields: seq<CustomField>)
    requires InTurn(c, n, texts, sent, m)
    ensures var (r, next) := EncryptFields(c, m, fields); InTurn(c, n, texts + FieldsTexts(fields), sent + SentFields(r), next)
  {
    hide InTurn, EncryptFields, FieldsTexts, SentFields;
    var (r, next) := EncryptFields(c, m, fields);
    FieldsInTurn(c, m, fields);
    TurnOver(c, n, texts, sent, m, FieldsTexts(fields), SentFields(r), next);
  }

  /** The value of a checkbox is sent in clear. */
  lemma {:induction false} CheckboxesInClear(c: Context, n: nat, fields: seq<CustomField>, i: nat)
    requires i < |fields| && fields[i].value.Boolean?
    ensures EncryptFields(c, n, fields).0[i].value == Some(if fields[i].value.flag then "true" else "false")
  {
    if i < |fields| - 1 {
      CheckboxesInClear(c, n, fields[..|fields| - 1], i);
    }
  }

  // ---------- numbers and dates ----------

  /** The match rules by their numbers, as they are read; a number that is none of these, or none at all, means the domain. */
  ghost predicate RuleOf(code: Option<nat>, m: UriMatch) {
    && (m.Domain? <==> code !in {Some(1), Some(2), Some(3), Some(4), Some(5)})
    && (m.Host? <==> code == Some(1)) && (m.StartsWith? <==> code == Some(2)) && (m.Exact? <==> code == Some(3))
    && (m.RegularExpression? <==> code == Some(4)) && (m.Never? <==> code == Some(5))
  }

  /** The types of custom fields by their numbers: text, hidden, checkbox; a number beyond is read as text. */
  ghost predicate FieldTypeOf(code: nat, v: FieldValue) {
    (v.Hidden? <==> code == 1) && (v.Boolean? <==> code == 2)
  }

  lemma {:induction false} UrisRead(c: Context, uris: seq<CipherUri>)
    requires DecryptUris(c, uris).Some?
    ensures var r := DecryptUris(c, uris).value;
      |r| == |uris| && forall i :: 0 <= i < |r| ==> RuleOf(uris[i].match_, r[i].match_) && DecryptOrEmpty(c, uris[i].uri) == Some(r[i].uri)
  {
    hide DecryptStr, DecryptOrEmpty;
    if uris != [] {
      UrisRead(c, uris[..|uris| - 1]);
    }
  }

  lemma {:induction false} FieldsRead(c: Context, fields: seq<CipherField>)
    requires DecryptFields(c, fields).Some?
    ensures var r := DecryptFields(c, fields).value;
      |r| == |fields| && forall i :: 0 <= i < |r| ==>
        && FieldTypeOf(fields[i].ftype, r[i].value) && r[i].linkedId.None? && DecryptOrEmpty(c, fields[i].name) == Some(r[i].name)
        && (if r[i].value.Boolean? then r[i].value.flag <==> fields[i].value == Some("true")
            else DecryptOrEmpty(c, fields[i].value) == Some(r[i].value.text))
  {
    hide DecryptStr, DecryptOrEmpty;
    if fields != [] {
      FieldsRead(c, fields[..|fields| - 1]);
    }
  }

  /** What is shown of a response, field by field. */
  ghost predicate Shows(c: Context, r: CipherResponse, item: VaultItem) {
    && item.id == r.id && item.favorite == r.body.favorite && item.folder == r.body.folder
    && DecryptStr(c, r.body.name) == Some(item.name) && DecryptOption(c, r.body.notes) == Some(item.notes)
    && (item.kind.Login? <==> r.body.atype == 1) && (item.kind.SecureNote? <==> r.body.atype == 2)
    && (item.kind.Card? <==> r.body.atype == 3) && (item.kind.Identity? <==> r.body.atype == 4)
    && DecryptFields(c, r.body.fields) == Some(item.fields)
    && (item.kind.Login? ==> ShowsLogin(c, r.body.login, item.kind.login))
  }

  ghost predicate ShowsLogin(c: Context, login: Option<CipherLogin>, l: LoginData) {
    match login
    case None => l == LoginData(None, None, None, [])
    case Some(sent) =>
      && DecryptOption(c, sent.username) == Some(l.username) && DecryptOption(c, sent.password) == Some(l.password)
      && DecryptOption(c, sent.totp) == Some(l.totp) && DecryptUris(c, sent.uris) == Some(l.uris)
  }

  /** Whatever is shown was decrypted from the field of its name. */
  lemma ShownFieldByField(c: Context, r: CipherResponse)
    requires DecryptCipher(c, r).Some?
    ensures Shows(c, r, DecryptCipher(c, r).value)
  {
    hide DecryptStr, DecryptOption, DecryptUris, DecryptFields, CreatedAt, UpdatedAt;
  }

  function Seconds(f: T.Fields): int {
    Days(f.date) * 86400 + f.hour * 3600 + f.min * 60 + f.sec
  }

  lemma MomentRead(m: T.Moment)
    requires T.WellFormed(m)
    ensures T.ParseIso8601(T.Format(m)) == Some(Seconds(m.fields))
  {
    hide T.Format, T.ParseFields, Days;
    T.ParseFormat(m);
  }

  /** The dates shown are the server's, in seconds: an absent or unreadable creation date is the revision's, and that, if unreadable, 1970. */
  lemma DatesExact(c: Context, r: CipherResponse)
    requires DecryptCipher(c, r).Some?
    ensures var item := DecryptCipher(c, r).value;
      && (forall m :: T.WellFormed(m) && r.revision == T.Format(m) ==> item.updatedAt == Seconds(m.fields))
      && (T.ParseIso8601(r.revision).None? ==> item.updatedAt == 0)
      && (forall m :: T.WellFormed(m) && r.creation == Some(T.Format(m)) ==> item.createdAt == Seconds(m.fields))
      && (r.creation.None? || T.ParseIso8601(r.creation.value).None? ==> item.createdAt == item.updatedAt)
  {
    hide DecryptStr, DecryptOption, DecryptUris, DecryptFields, DecryptKind, T.ParseIso8601, T.Format, Seconds;
    forall m | T.WellFormed(m) ensures T.ParseIso8601(T.Format(m)) == Some(Seconds(m.fields)) {
      MomentRead(m);
    }
  }
}
