/** Certificate authentication, and which sessions survive changes to the CAs and
    CRLs (pkg/mfa/cert.go, service/user/manager.go, service/user/session.go). */
module CertMfa {
  import opened Results

  /** Certificates, CAs and CRLs as stored. */
  type Raw = string

  /** What the X.509 library says about raw data, taken as independent of time. */
  datatype Pki = Pki(
    certs: iset<Raw>,               // parses as a certificate
    cas: iset<Raw>,                 // parses as a CA certificate
    roots: iset<Raw>,               // loads as a root certificate, which is another test
    crls: iset<Raw>,                // parses as a CRL
    verifies: iset<(Raw, Raw)>,     // (certificate, CA): the chain verifies
    signed: iset<(Raw, Raw)>,       // (CRL, CA): the CRL carries the CA's signature
    lists: iset<(Raw, Raw)>)        // (CRL, certificate): the CRL lists its serial number

  datatype Error = NoCAs | CannotParse | NoCAFound | Revoked

  // ---- Authentication ----

  /** The first CA that verifies the certificate, unless one that does not load as a root comes first. */
  function CAFor(pki: Pki, cert: Raw, cas: seq<Raw>): Result<Raw, Error> {
    if cert !in pki.certs then Err(CannotParse)
    else if cas == [] then Err(NoCAFound)
    else if cas[0] !in pki.roots then Err(CannotParse)
    else if (cert, cas[0]) in pki.verifies then Ok(cas[0])
    else CAFor(pki, cert, cas[1..])
  }

  method FindCAForCert(pki: Pki, cert: Raw, cas: seq<Raw>) returns (r: Result<Raw, Error>)
    ensures r == CAFor(pki, cert, cas)
  {
    if cert !in pki.certs {
      return Err(CannotParse);
    }
    for i := 0 to |cas|
      invariant CAFor(pki, cert, cas) == CAFor(pki, cert, cas[i..])
    {
      if cas[i] !in pki.roots {
        return Err(CannotParse);
      }
      if (cert, cas[i]) in pki.verifies {
        return Ok(cas[i]);
      }
    }
    return Err(NoCAFound);
  }

  /** The CRLs that carry the CA's signature; an unreadable CA, or CRL of any CA, fails the lookup. */
  function CRLsOf(pki: Pki, ca: Raw, crls: seq<Raw>): Result<seq<Raw>, Error> {
    if ca !in pki.cas then Err(CannotParse)
    else if crls == [] then Ok([])
    else
      var n := |crls| - 1;
      match CRLsOf(pki, ca, crls[..n])
      case Err(e) => Err(e)
      case Ok(own) =>
        if crls[n] !in pki.crls then Err(CannotParse)
        else Ok(if (crls[n], ca) in pki.signed then own + [crls[n]] else own)
  }

  method FindCRLsForCA(pki: Pki, ca: Raw, crls: seq<Raw>) returns (r: Result<seq<Raw>, Error>)
    ensures r == CRLsOf(pki, ca, crls)
  {
    if ca !in pki.cas {
      return Err(CannotParse);
    }
    var own: seq<Raw> := [];
    for i := 0 to |crls|
      invariant CRLsOf(pki, ca, crls[..i]) == Ok(own)
    {
      assert crls[..i + 1][..i] == crls[..i];
      if crls[i] !in pki.crls {
        PrefixFails(pki, ca, crls, i + 1);
        return Err(CannotParse);
      }
      if (crls[i], ca) in pki.signed {
        own := own + [crls[i]];
      }
    }
    assert crls[..|crls|] == crls;
    return Ok(own);
  }

  lemma {:induction false} PrefixFails(pki: Pki, ca: Raw, crls: seq<Raw>, i: nat)
    requires i <= |crls| && CRLsOf(pki, ca, crls[..i]) == Err(CannotParse)
    ensures CRLsOf(pki, ca, crls) == Err(CannotParse)
    decreases |crls| - i
  {
    if i == |crls| {
      assert crls[..i] == crls;
    } else {
      assert crls[..i + 1][..i] == crls[..i];
      PrefixFails(pki, ca, crls, i + 1);
    }
  }

  predicate ListedInAny(pki: Pki, cert: Raw, crls: seq<Raw>) {
    exists i :: 0 <= i < |crls| && (crls[i], cert) in pki.lists
  }

  method CheckCertAgainstCRL(pki: Pki, cert: Raw, crls: seq<Raw>) returns (r: Result<(), Error>)
    ensures r == if ListedInAny(pki, cert, crls) then Err(Revoked) else Ok(())
  {
    for i := 0 to |crls|
      invariant forall k :: 0 <= k < i ==> (crls[k], cert) !in pki.lists
    {
      if (crls[i], cert) in pki.lists {
        return Err(Revoked);
      }
    }
    return Ok(());
  }

  /** Does CERTAuthenticator.Authenticate let the certificate in? */
  predicate Accepts(pki: Pki, cert: Raw, cas: seq<Raw>, crls: seq<Raw>) {
    var ca := CAFor(pki, cert, cas);
    cas != [] && ca.Ok? &&
    var own := CRLsOf(pki, ca.value, crls);
    own.Ok? && !ListedInAny(pki, cert, own.value)
  }

  method Authenticate(pki: Pki, cert: Raw, cas: seq<Raw>, crls: seq<Raw>) returns (r: Result<(), Error>)
    ensures r.Ok? <==> Accepts(pki, cert, cas, crls)
  {
    if |cas| == 0 {
      return Err(NoCAs);
    }
    var ca := FindCAForCert(pki, cert, cas);
    if ca.Err? {
      return Err(ca.error);
    }
    var own := FindCRLsForCA(pki, ca.value, crls);
    if own.Err? {
      return Err(own.error);
    }
    r := CheckCertAgainstCRL(pki, cert, own.value);
  }

  // ---- What acceptance means ----

  /** The first CA in line for the certificate: those before it load and do not verify it. */
  ghost predicate FirstCA(pki: Pki, cert: Raw, cas: seq<Raw>, k: int) {
    && 0 <= k < |cas| && (forall i :: 0 <= i <= k ==> cas[i] in pki.roots)
    && (forall i :: 0 <= i < k ==> (cert, cas[i]) !in pki.verifies)
    && (cert, cas[k]) in pki.verifies
  }

  lemma {:induction false} FindsFirstCA(pki: Pki, cert: Raw, cas: seq<Raw>)
    ensures match CAFor(pki, cert, cas)
      case Ok(ca) => cert in pki.certs && exists k :: FirstCA(pki, cert, cas, k) && cas[k] == ca
      case Err(_) => cert !in pki.certs || forall k :: !FirstCA(pki, cert, cas, k)
  {
    if cert in pki.certs && cas != [] && cas[0] in pki.roots {
      if (cert, cas[0]) in pki.verifies {
        assert FirstCA(pki, cert, cas, 0);
      } else {
        FindsFirstCA(pki, cert, cas[1..]);
        if k :| FirstCA(pki, cert, cas[1..], k) {
          assert FirstCA(pki, cert, cas, k + 1);
        }
        forall k | FirstCA(pki, cert, cas, k) ensures FirstCA(pki, cert, cas[1..], k - 1) {
          assert k != 0;
        }
      }
    }
  }

  /** The CA and every CRL are readable, and no CRL of that CA lists the certificate. */
  ghost predicate Unrevoked(pki: Pki, cert: Raw, ca: Raw, crls: seq<Raw>) {
    ca in pki.cas && forall i :: 0 <= i < |crls| ==> DoesNotRevoke(pki, cert, ca, crls[i])
  }

  predicate DoesNotRevoke(pki: Pki, cert: Raw, ca: Raw, crl: Raw) {
    crl in pki.crls && !((crl, ca) in pki.signed && (crl, cert) in pki.lists)
  }

  lemma {:induction false} FindsOwnCRLs(pki: Pki, cert: Raw, ca: Raw, crls: seq<Raw>)
    ensures var own := CRLsOf(pki, ca, crls);
      (own.Ok? && !ListedInAny(pki, cert, own.value)) <==> Unrevoked(pki, cert, ca, crls)
  {
    if crls != [] {
      var n := |crls| - 1;
      FindsOwnCRLs(pki, cert, ca, crls[..n]);
      assert crls == crls[..n] + [crls[n]];
      assert Unrevoked(pki, cert, ca, crls) <==>
        Unrevoked(pki, cert, ca, crls[..n]) && Unrevoked(pki, cert, ca, [crls[n]]);
      var before := CRLsOf(pki, ca, crls[..n]);
      if before.Ok? {
        ListedInOneMore(pki, cert, before.value, crls[n]);
      }
    }
  }

  lemma ListedInOneMore(pki: Pki, cert: Raw, crls: seq<Raw>, crl: Raw)
    ensures ListedInAny(pki, cert, crls + [crl]) <==> ListedInAny(pki, cert, crls) || (crl, cert) in pki.lists
  {
    if i :| 0 <= i < |crls| && (crls[i], cert) in pki.lists {
      assert (crls + [crl])[i] == crls[i];
    }
    assert (crls + [crl])[|crls|] == crl;
  }

  /** A certificate is accepted exactly when the first CA in line for it exists and is
      readable, every CRL is readable, and no CRL of that CA lists it. */
  lemma AcceptedExactly(pki: Pki, cert: Raw, cas: seq<Raw>, crls: seq<Raw>)
    ensures Accepts(pki, cert, cas, crls) <==>
      cert in pki.certs && exists k :: FirstCA(pki, cert, cas, k) && Unrevoked(pki, cert, cas[k], crls)
  {
    FindsFirstCA(pki, cert, cas);
    var ca := CAFor(pki, cert, cas);
    if ca.Ok? {
      FindsOwnCRLs(pki, cert, ca.value, crls);
    }
  }

  // ---- Adding and removing validators ----

  function RemoveAt(xs: seq<Raw>, p: int): seq<Raw>
    requires 0 <= p < |xs|
  {
    xs[..p] + xs[p + 1..]
  }

  /** Appending a CA never shuts out a certificate. */
  lemma AppendCAKeeps(pki: Pki, cert: Raw, cas: seq<Raw>, crls: seq<Raw>, ca: Raw)
    requires Accepts(pki, cert, cas, crls)
    ensures Accepts(pki, cert, cas + [ca], crls)
  {
    AcceptedExactly(pki, cert, cas, crls);
    AcceptedExactly(pki, cert, cas + [ca], crls);
    var k :| FirstCA(pki, cert, cas, k) && Unrevoked(pki, cert, cas[k], crls);
    assert FirstCA(pki, cert, cas + [ca], k);
  }

  /** Removing a CRL never shuts out a certificate. */
  lemma RemoveCRLKeeps(pki: Pki, cert: Raw, cas: seq<Raw>, crls: seq<Raw>, p: int)
    requires 0 <= p < |crls| && Accepts(pki, cert, cas, crls)
    ensures Accepts(pki, cert, cas, RemoveAt(crls, p))
  {
    AcceptedExactly(pki, cert, cas, crls);
    AcceptedExactly(pki, cert, cas, RemoveAt(crls, p));
    var k :| FirstCA(pki, cert, cas, k) && Unrevoked(pki, cert, cas[k], crls);
    assert Unrevoked(pki, cert, cas[k], RemoveAt(crls, p));
  }

  /** The CA at p can go unnoticed: the same CA also stands before it, or stands
      after it with nothing in between that is new at that point. */
  predicate Redundant(cas: seq<Raw>, p: int)
    requires 0 <= p < |cas|
  {
    || cas[p] in cas[..p]
    || exists q :: p < q < |cas| && IsNextCopy(cas, p, q)
  }

  predicate IsNextCopy(cas: seq<Raw>, p: int, q: int)
    requires 0 <= p < |cas|
  {
    p < q < |cas| && cas[q] == cas[p] && forall i :: p < i < q ==> cas[i] in cas[..p]
  }

  /** Removing a redundant CA never shuts out a certificate ... */
  lemma RemoveRedundantCAKeeps(pki: Pki, cert: Raw, cas: seq<Raw>, crls: seq<Raw>, p: int)
    requires 0 <= p < |cas| && Redundant(cas, p) && Accepts(pki, cert, cas, crls)
    ensures Accepts(pki, cert, RemoveAt(cas, p), crls)
  {
    AcceptedExactly(pki, cert, cas, crls);
    AcceptedExactly(pki, cert, RemoveAt(cas, p), crls);
    var k :| FirstCA(pki, cert, cas, k) && Unrevoked(pki, cert, cas[k], crls);
    if k < p {
      assert FirstCA(pki, cert, RemoveAt(cas, p), k);
    } else if k > p {
      assert FirstCA(pki, cert, RemoveAt(cas, p), k - 1);
    } else {
      assert forall i :: 0 <= i < p ==> (cert, cas[i]) !in pki.verifies;
      assert cas[p] !in cas[..p];
      var q :| IsNextCopy(cas, p, q);
      SkipKnown(pki, cert, cas, p, q);
    }
  }

  lemma SkipKnown(pki: Pki, cert: Raw, cas: seq<Raw>, p: int, q: int)
    requires FirstCA(pki, cert, cas, p) && IsNextCopy(cas, p, q)
    ensures FirstCA(pki, cert, RemoveAt(cas, p), q - 1) && RemoveAt(cas, p)[q - 1] == cas[p]
  {
    var rest := RemoveAt(cas, p);
    forall i | 0 <= i < q - 1 ensures rest[i] in pki.roots && (cert, rest[i]) !in pki.verifies {
      if i < p {
        assert rest[i] == cas[i];
      } else {
        assert rest[i] == cas[i + 1] && cas[i + 1] in cas[..p];
        var j :| 0 <= j < p && cas[j] == rest[i];
      }
    }
  }

  ghost function Elements(xs: seq<Raw>): iset<Raw> {
    iset x | x in xs
  }

  /** Data of which everything stored parses, and just the CAs up to p load as roots. */
  ghost function LoadsUpTo(cas: seq<Raw>, crls: seq<Raw>, p: int): Pki
    requires 0 <= p < |cas|
  {
    var cert := cas[p];
    Pki(iset{cert}, Elements(cas), Elements(cas[..p + 1]), Elements(crls), iset{(cert, cert)}, iset{}, iset{})
  }

  /** ... and removing any other does, under some readings of the data: a CA that comes
      next may parse, and so be stored, but not load as a root. */
  lemma RemoveOtherCALoses(cas: seq<Raw>, crls: seq<Raw>, p: int)
    requires 0 <= p < |cas| && !Redundant(cas, p)
    ensures var pki := LoadsUpTo(cas, crls, p);
      && (forall ca :: ca in cas ==> ca in pki.cas) && (forall crl :: crl in crls ==> crl in pki.crls)
      && Accepts(pki, cas[p], cas, crls) && !Accepts(pki, cas[p], RemoveAt(cas, p), crls)
  {
    var pki, cert := LoadsUpTo(cas, crls, p), cas[p];
    AcceptedExactly(pki, cert, cas, crls);
    AcceptedExactly(pki, cert, RemoveAt(cas, p), crls);
    assert forall i :: 0 <= i <= p ==> cas[i] in cas[..p + 1];
    assert forall i :: 0 <= i < p ==> cas[i] in cas[..p];
    assert FirstCA(pki, cert, cas, p) && Unrevoked(pki, cert, cas[p], crls);
    forall k ensures !FirstCA(pki, cert, RemoveAt(cas, p), k) {
      if FirstCA(pki, cert, RemoveAt(cas, p), k) {
        NextCopyFound(pki, cert, cas, p, k);
      }
    }
  }

  lemma NextCopyFound(pki: Pki, cert: Raw, cas: seq<Raw>, p: int, k: int)
    requires 0 <= p < |cas| && cas[p] !in cas[..p] && FirstCA(pki, cert, RemoveAt(cas, p), k)
    requires forall r :: r in pki.roots <==> r in cas[..p + 1]
    requires forall r :: (cert, r) in pki.verifies <==> r == cas[p]
    ensures IsNextCopy(cas, p, k + 1)
  {
    var rest := RemoveAt(cas, p);
    assert cas[..p + 1] == cas[..p] + [cas[p]];
    assert rest[k] == cas[p];
    assert forall i :: 0 <= i < p ==> rest[i] == cas[i] && cas[i] in cas[..p];
    forall i | p < i < k + 1 ensures cas[i] in cas[..p] {
      assert cas[i] == rest[i - 1] && rest[i - 1] in pki.roots && (cert, rest[i - 1]) !in pki.verifies;
    }
  }

  // ---- The stored validators and the live sessions ----

  datatype Kind = CA | CRL

  datatype CertRow = CertRow(id: int, kind: Kind, data: Raw)

  /** The validators in insertion order, and the live sessions of users with
      certificate MFA, each with the certificate that opened it. */
  datatype Store = Store(certs: seq<CertRow>, sessions: map<string, Raw>)

  /** SELECT cert FROM mfa_certs WHERE cert_type=kind. */
  function OfKind(certs: seq<CertRow>, kind: Kind): seq<Raw> {
    if certs == [] then []
    else
      var n := |certs| - 1;
      OfKind(certs[..n], kind) + if certs[n].kind == kind then [certs[n].data] else []
  }

  ghost predicate StoreAccepts(pki: Pki, s: Store, cert: Raw) {
    Accepts(pki, cert, OfKind(s.certs, CA), OfKind(s.certs, CRL))
  }

  /** Every live session is one its certificate would still be let in for. */
  ghost predicate Justified(pki: Pki, s: Store) {
    forall session :: session in s.sessions ==> StoreAccepts(pki, s, s.sessions[session])
  }

  lemma {:induction false} OfKindConcat(a: seq<CertRow>, b: seq<CertRow>, kind: Kind)
    ensures OfKind(a + b, kind) == OfKind(a, kind) + OfKind(b, kind)
  {
    if b == [] {
      assert a + b == a;
    } else {
      var n := |b| - 1;
      assert (a + b)[..|a| + n] == a + b[..n];
      OfKindConcat(a, b[..n], kind);
    }
  }

  /** The table without row i. */
  function Dropped(certs: seq<CertRow>, i: int): seq<CertRow>
    requires 0 <= i < |certs|
  {
    certs[..i] + certs[i + 1..]
  }

  /** Dropping a row takes its data out of its own kind's list and leaves the other list alone. */
  lemma DropFromKind(certs: seq<CertRow>, i: int, kind: Kind)
    requires 0 <= i < |certs|
    ensures certs[i].kind != kind ==> OfKind(Dropped(certs, i), kind) == OfKind(certs, kind)
    ensures certs[i].kind == kind ==>
      var p := |OfKind(certs[..i], kind)|;
      && p < |OfKind(certs, kind)| && OfKind(certs, kind)[p] == certs[i].data
      && OfKind(Dropped(certs, i), kind) == RemoveAt(OfKind(certs, kind), p)
  {
    assert certs == certs[..i] + [certs[i]] + certs[i + 1..];
    OfKindConcat(certs[..i], [certs[i]], kind);
    OfKindConcat(certs[..i] + [certs[i]], certs[i + 1..], kind);
    OfKindConcat(certs[..i], certs[i + 1..], kind);
    assert OfKind([certs[i]], kind) == if certs[i].kind == kind then [certs[i].data] else [];
  }

  /** Deleting row i without clearing any session is safe under every reading of the data. */
  predicate SafeToDrop(certs: seq<CertRow>, i: int)
    requires 0 <= i < |certs|
  {
    certs[i].kind == CA ==>
      var p := |OfKind(certs[..i], CA)|;
      p < |OfKind(certs, CA)| && Redundant(OfKind(certs, CA), p)
  }

  lemma SafeDropKeeps(pki: Pki, s: Store, i: int)
    requires 0 <= i < |s.certs| && SafeToDrop(s.certs, i) && Justified(pki, s)
    ensures Justified(pki, s.(certs := Dropped(s.certs, i)))
  {
    DropFromKind(s.certs, i, CA);
    DropFromKind(s.certs, i, CRL);
    forall session | session in s.sessions
      ensures StoreAccepts(pki, s.(certs := Dropped(s.certs, i)), s.sessions[session])
    {
      assert StoreAccepts(pki, s, s.sessions[session]);
      if s.certs[i].kind == CA {
        RemoveRedundantCAKeeps(pki, s.sessions[session], OfKind(s.certs, CA), OfKind(s.certs, CRL),
          |OfKind(s.certs[..i], CA)|);
      } else {
        RemoveCRLKeeps(pki, s.sessions[session], OfKind(s.certs, CA), OfKind(s.certs, CRL),
          |OfKind(s.certs[..i], CRL)|);
      }
    }
  }

  // ---- The four operations and logging in ----

  datatype Change =
    | Login(session: string, cert: Raw)
    | CreateCA(id: int, data: Raw)
    | CreateCRL(id: int, data: Raw)
    | DeleteCA(id: int)
    | DeleteCRL(id: int)

  function IndexOf(certs: seq<CertRow>, id: int): (i: Option<int>)
    ensures i.Some? ==> 0 <= i.value < |certs| && certs[i.value].id == id
    ensures i.None? ==> forall k :: 0 <= k < |certs| ==> certs[k].id != id
  {
    if certs == [] then None
    else if certs[0].id == id then Some(0)
    else
      match IndexOf(certs[1..], id)
      case None => None
      case Some(i) => Some(i + 1)
  }

  /** DELETE FROM mfa_certs WHERE id=$1, whatever the row's kind. */
  function Deleted(certs: seq<CertRow>, id: int): seq<CertRow> {
    match IndexOf(certs, id)
    case None => certs
    case Some(i) => Dropped(certs, i)
  }

  /** What each operation leaves: adding a CRL and deleting a CA clear every session. */
  function Apply(pki: Pki, s: Store, c: Change): Store {
    match c
    case Login(session, cert) =>
      if Accepts(pki, cert, OfKind(s.certs, CA), OfKind(s.certs, CRL)) then
        s.(sessions := s.sessions[session := cert]) else s
    case CreateCA(id, data) =>
      if data in pki.cas then s.(certs := s.certs + [CertRow(id, CA, data)]) else s
    case CreateCRL(id, data) =>
      if data in pki.crls then Store(s.certs + [CertRow(id, CRL, data)], map[]) else s
    case DeleteCA(id) =>
      if IndexOf(s.certs, id).Some? then Store(Deleted(s.certs, id), map[]) else s
    case DeleteCRL(id) =>
      s.(certs := Deleted(s.certs, id))
  }

  class CertManager {
    const pki: Pki
    var certs: seq<CertRow>
    var nextID: int
    var sessions: map<string, Raw>

    function View(): Store
      reads this
    {
      Store(certs, sessions)
    }

    /** IDs are serial. */
    ghost predicate Valid()
      reads this
    {
      && (forall i :: 0 <= i < |certs| ==> certs[i].id < nextID)
      && (forall i, j :: 0 <= i < j < |certs| ==> certs[i].id < certs[j].id)
    }

    constructor (pki: Pki)
      ensures Valid() && View() == Store([], map[]) && this.pki == pki
    {
      this.pki, certs, nextID, sessions := pki, [], 1, map[];
    }

    method GetMFACerts(kind: Kind) returns (data: seq<Raw>)
      ensures data == OfKind(certs, kind)
    {
      data := [];
      for i := 0 to |certs|
        invariant data == OfKind(certs[..i], kind)
      {
        assert certs[..i + 1][..i] == certs[..i];
        if certs[i].kind == kind {
          data := data + [certs[i].data];
        }
      }
      assert certs[..|certs|] == certs;
    }

    /** A user with certificate MFA presents a certificate and gets a session. */
    method OpenSession(session: string, cert: Raw) returns (ok: bool)
      requires Valid()
      modifies this`sessions
      ensures Valid() && View() == Apply(pki, old(View()), Login(session, cert))
      ensures ok <==> AcceptedBy(pki, certs, cert)
      ensures sessions == if ok then old(sessions)[session := cert] else old(sessions)
    {
      var crls := GetMFACerts(CRL);
      var cas := GetMFACerts(CA);
      AcceptsOnRows(pki, certs, cert);
      var r := Authenticate(pki, cert, cas, crls);
      ok := r.Ok?;
      if ok {
        sessions := sessions[session := cert];
      }
    }

    method InsertMFACert(data: Raw, kind: Kind)
      requires Valid()
      modifies this`certs, this`nextID
      ensures Valid() && certs == old(certs) + [CertRow(old(nextID), kind, data)] && nextID == old(nextID) + 1
    {
      certs := certs + [CertRow(nextID, kind, data)];
      nextID := nextID + 1;
    }

    method DeleteMFACert(id: int) returns (found: bool)
      requires Valid()
      modifies this`certs
      ensures Valid() && certs == Deleted(old(certs), id) && (found <==> IndexOf(old(certs), id).Some?)
      ensures RowDeleted(old(certs), id, certs, found)
    {
      var i := IndexOf(certs, id);
      found := i.Some?;
      if found {
        assert IsRowAt(certs, id, i.value);
        certs := Dropped(certs, i.value);
      }
    }

    /** Which of the four changes clears the sessions of users with certificate MFA. */
    method DeleteInvalidSessionsByMFACert(inserted: bool, kind: Kind)
      requires Valid()
      modifies this`sessions
      ensures Valid() && sessions == if inserted == (kind == CRL) then map[] else old(sessions)
    {
      if inserted && kind == CA {
      } else if inserted && kind == CRL {
        sessions := map[];
      } else if !inserted && kind == CA {
        sessions := map[];
      } else {
      }
    }

    method MFACreateCA(ca: Raw) returns (ok: bool)
      requires Valid()
      modifies this
      ensures Valid() && View() == Apply(pki, old(View()), CreateCA(old(nextID), ca)) && (ok <==> ca in pki.cas)
      ensures certs == if ok then old(certs) + [CertRow(old(nextID), CA, ca)] else old(certs)
      ensures sessions == old(sessions)
    {
      if ca !in pki.cas {
        return false;
      }
      InsertMFACert(ca, CA);
      DeleteInvalidSessionsByMFACert(true, CA);
      return true;
    }

    method MFACreateCRL(crl: Raw) returns (ok: bool)
      requires Valid()
      modifies this
      ensures Valid() && View() == Apply(pki, old(View()), CreateCRL(old(nextID), crl)) && (ok <==> crl in pki.crls)
      ensures certs == if ok then old(certs) + [CertRow(old(nextID), CRL, crl)] else old(certs)
      ensures sessions == if ok then map[] else old(sessions)
    {
      if crl !in pki.crls {
        return false;
      }
      InsertMFACert(crl, CRL);
      DeleteInvalidSessionsByMFACert(true, CRL);
      return true;
    }

    method MFADeleteCA(id: int) returns (ok: bool)
      requires Valid()
      modifies this
      ensures Valid() && View() == Apply(pki, old(View()), DeleteCA(id)) && (ok <==> IndexOf(old(certs), id).Some?)
      ensures RowDeleted(old(certs), id, certs, ok)
      ensures sessions == if ok then map[] else old(sessions)
    {
      ok := DeleteMFACert(id);
      if ok {
        DeleteInvalidSessionsByMFACert(false, CA);
      }
    }

    method MFADeleteCRL(id: int) returns (ok: bool)
      requires Valid()
      modifies this
      ensures Valid() && View() == Apply(pki, old(View()), DeleteCRL(id)) && (ok <==> IndexOf(old(certs), id).Some?)
      ensures RowDeleted(old(certs), id, certs, ok)
      ensures sessions == old(sessions)
    {
      ok := DeleteMFACert(id);
      if ok {
        DeleteInvalidSessionsByMFACert(false, CRL);
      }
    }
  }

  // ---- The operations on rows ----

  predicate IsRowAt(certs: seq<CertRow>, id: int, p: int) {
    0 <= p < |certs| && certs[p].id == id
  }

  /** The row with the ID is gone and the others are left in their order; done says
      whether there was one. */
  ghost predicate RowDeleted(before: seq<CertRow>, id: int, after: seq<CertRow>, done: bool) {
    if done then exists p :: IsRowAt(before, id, p) && after == before[..p] + before[p + 1..]
    else after == before && forall p :: !IsRowAt(before, id, p)
  }

  /** Deleting a row leaves exactly the rows with other IDs. */
  lemma OtherRowsStay(before: seq<CertRow>, id: int, after: seq<CertRow>, row: CertRow)
    requires RowDeleted(before, id, after, true)
    requires forall i, j :: 0 <= i < j < |before| ==> before[i].id != before[j].id
    ensures row in after <==> row in before && row.id != id
  {
    var p :| IsRowAt(before, id, p) && after == before[..p] + before[p + 1..];
    if i :| 0 <= i < |before| && before[i] == row {
      assert i < p ==> before[..p][i] == row;
      assert i > p ==> before[p + 1..][i - p - 1] == row;
    }
    if k :| 0 <= k < |after| && after[k] == row {
      assert row == before[if k < p then k else k + 1];
    }
  }

  /** The first CA row in line for the certificate. */
  ghost predicate FirstCARow(pki: Pki, rows: seq<CertRow>, cert: Raw, k: int) {
    && 0 <= k < |rows| && rows[k].kind == CA && (cert, rows[k].data) in pki.verifies
    && (forall i :: 0 <= i <= k && rows[i].kind == CA ==> rows[i].data in pki.roots)
    && (forall i :: 0 <= i < k && rows[i].kind == CA ==> (cert, rows[i].data) !in pki.verifies)
  }

  /** The stored rows let the certificate in: it parses, some CA row is the first that verifies it with
      all CAs up to there loading as roots, that CA and all CRLs parse, and no CRL that
      this CA signed lists the certificate. */
  ghost predicate AcceptedBy(pki: Pki, rows: seq<CertRow>, cert: Raw) {
    cert in pki.certs && exists k :: FirstCARow(pki, rows, cert, k) && RowsUnrevoked(pki, rows, cert, rows[k].data)
  }

  ghost predicate RowsUnrevoked(pki: Pki, rows: seq<CertRow>, cert: Raw, ca: Raw) {
    && ca in pki.cas
    && forall i :: 0 <= i < |rows| && rows[i].kind == CRL ==>
         rows[i].data in pki.crls && !((rows[i].data, ca) in pki.signed && (rows[i].data, cert) in pki.lists)
  }

  predicate HasData(rows: seq<CertRow>, kind: Kind, data: Raw) {
    exists i :: 0 <= i < |rows| && rows[i].kind == kind && rows[i].data == data
  }

  lemma {:induction false} OfKindMembers(rows: seq<CertRow>, kind: Kind)
    ensures forall data :: data in OfKind(rows, kind) <==> HasData(rows, kind, data)
  {
    if rows != [] {
      var n := |rows| - 1;
      assert rows == rows[..n] + [rows[n]];
      OfKindMembers(rows[..n], kind);
      forall data ensures data in OfKind(rows, kind) <==> HasData(rows, kind, data) {
        if data in OfKind(rows[..n], kind) {
          var i :| 0 <= i < n && rows[..n][i].kind == kind && rows[..n][i].data == data;
          assert rows[i].kind == kind && rows[i].data == data;
        }
      }
    }
  }

  predicate Passed(pki: Pki, cert: Raw, ca: Raw) {
    ca in pki.roots && (cert, ca) !in pki.verifies
  }

  predicate Taken(pki: Pki, cert: Raw, ca: Raw) {
    ca in pki.roots && (cert, ca) in pki.verifies
  }

  /** None of the CAs is in the way: each loads and does not verify the certificate. */
  ghost predicate AllPassed(pki: Pki, cert: Raw, cas: seq<Raw>) {
    forall i :: 0 <= i < |cas| ==> Passed(pki, cert, cas[i])
  }

  ghost predicate AllRowsPassed(pki: Pki, rows: seq<CertRow>, cert: Raw) {
    forall i :: 0 <= i < |rows| && rows[i].kind == CA ==> Passed(pki, cert, rows[i].data)
  }

  ghost predicate HasFirst(pki: Pki, cert: Raw, cas: seq<Raw>, ca: Raw) {
    exists k :: FirstCA(pki, cert, cas, k) && cas[k] == ca
  }

  ghost predicate HasFirstRow(pki: Pki, rows: seq<CertRow>, cert: Raw, ca: Raw) {
    exists k :: FirstCARow(pki, rows, cert, k) && rows[k].data == ca
  }

  lemma OneMoreCA(pki: Pki, cert: Raw, cas: seq<Raw>, x: Raw, ca: Raw)
    ensures AllPassed(pki, cert, cas + [x]) <==> AllPassed(pki, cert, cas) && Passed(pki, cert, x)
    ensures HasFirst(pki, cert, cas + [x], ca) <==>
      HasFirst(pki, cert, cas, ca) || (AllPassed(pki, cert, cas) && x == ca && Taken(pki, cert, x))
  {
    var all := cas + [x];
    assert all[|cas|] == x && forall i :: 0 <= i < |cas| ==> all[i] == cas[i];
    if k :| FirstCA(pki, cert, cas, k) && cas[k] == ca {
      assert FirstCA(pki, cert, all, k);
    }
    if k :| FirstCA(pki, cert, all, k) && all[k] == ca {
      assert k < |cas| ==> FirstCA(pki, cert, cas, k);
    }
    if AllPassed(pki, cert, cas) && Taken(pki, cert, x) {
      assert FirstCA(pki, cert, all, |cas|);
    }
  }

  lemma OneMoreCARow(pki: Pki, rows: seq<CertRow>, cert: Raw, x: CertRow, ca: Raw)
    ensures AllRowsPassed(pki, rows + [x], cert) <==>
      AllRowsPassed(pki, rows, cert) && (x.kind == CA ==> Passed(pki, cert, x.data))
    ensures HasFirstRow(pki, rows + [x], cert, ca) <==>
      (HasFirstRow(pki, rows, cert, ca) ||
       (AllRowsPassed(pki, rows, cert) && x.kind == CA && x.data == ca && Taken(pki, cert, ca)))
  {
    var all := rows + [x];
    assert all[|rows|] == x && forall i :: 0 <= i < |rows| ==> all[i] == rows[i];
    if k :| FirstCARow(pki, rows, cert, k) && rows[k].data == ca {
      assert FirstCARow(pki, all, cert, k);
    }
    if k :| FirstCARow(pki, all, cert, k) && all[k].data == ca {
      assert k < |rows| ==> FirstCARow(pki, rows, cert, k);
    }
    if AllRowsPassed(pki, rows, cert) && x.kind == CA && Taken(pki, cert, x.data) {
      assert FirstCARow(pki, all, cert, |rows|);
    }
  }

  lemma {:induction false} SameFirstCA(pki: Pki, rows: seq<CertRow>, cert: Raw, ca: Raw)
    ensures AllPassed(pki, cert, OfKind(rows, CA)) <==> AllRowsPassed(pki, rows, cert)
    ensures HasFirst(pki, cert, OfKind(rows, CA), ca) <==> HasFirstRow(pki, rows, cert, ca)
  {
    if rows == [] {
      assert OfKind(rows, CA) == [];
    } else {
      var before, x := rows[..|rows| - 1], rows[|rows| - 1];
      SameFirstCA(pki, before, cert, ca);
      SameFirstOneMore(pki, before, x, cert, ca);
      assert rows == before + [x];
    }
  }

  lemma SameFirstOneMore(pki: Pki, rows: seq<CertRow>, x: CertRow, cert: Raw, ca: Raw)
    requires AllPassed(pki, cert, OfKind(rows, CA)) <==> AllRowsPassed(pki, rows, cert)
    requires HasFirst(pki, cert, OfKind(rows, CA), ca) <==> HasFirstRow(pki, rows, cert, ca)
    ensures AllPassed(pki, cert, OfKind(rows + [x], CA)) <==> AllRowsPassed(pki, rows + [x], cert)
    ensures HasFirst(pki, cert, OfKind(rows + [x], CA), ca) <==> HasFirstRow(pki, rows + [x], cert, ca)
  {
    OfKindConcat(rows, [x], CA);
    assert OfKind([x], CA) == if x.kind == CA then [x.data] else [];
    OneMoreCARow(pki, rows, cert, x, ca);
    OneMoreCA(pki, cert, OfKind(rows, CA), x.data, ca);
    assert OfKind(rows, CA) + [] == OfKind(rows, CA);
  }

  lemma SameUnrevoked(pki: Pki, rows: seq<CertRow>, cert: Raw, ca: Raw)
    ensures Unrevoked(pki, cert, ca, OfKind(rows, CRL)) <==> RowsUnrevoked(pki, rows, cert, ca)
  {
    var crls := OfKind(rows, CRL);
    OfKindMembers(rows, CRL);
    if Unrevoked(pki, cert, ca, crls) {
      forall i | 0 <= i < |rows| && rows[i].kind == CRL ensures DoesNotRevoke(pki, cert, ca, rows[i].data) {
        assert rows[i].data in crls;
      }
    }
    forall k | 0 <= k < |crls| ensures exists i :: 0 <= i < |rows| && rows[i].kind == CRL && rows[i].data == crls[k] {
      assert crls[k] in crls;
    }
  }

  /** Authentication over the stored rows, said of the rows. */
  lemma AcceptsOnRows(pki: Pki, rows: seq<CertRow>, cert: Raw)
    ensures Accepts(pki, cert, OfKind(rows, CA), OfKind(rows, CRL)) <==> AcceptedBy(pki, rows, cert)
  {
    var cas, crls := OfKind(rows, CA), OfKind(rows, CRL);
    AcceptedExactly(pki, cert, cas, crls);
    if k :| FirstCA(pki, cert, cas, k) && Unrevoked(pki, cert, cas[k], crls) {
      SameFirstCA(pki, rows, cert, cas[k]);
      SameUnrevoked(pki, rows, cert, cas[k]);
    }
    if k :| FirstCARow(pki, rows, cert, k) && RowsUnrevoked(pki, rows, cert, rows[k].data) {
      SameFirstCA(pki, rows, cert, rows[k].data);
      SameUnrevoked(pki, rows, cert, rows[k].data);
    }
  }

  /** Once the only CA that verifies a certificate is deleted, the certificate is refused. */
  lemma WithoutItsCARefused(pki: Pki, before: seq<CertRow>, id: int, after: seq<CertRow>, cert: Raw)
    requires RowDeleted(before, id, after, true)
    requires forall i :: 0 <= i < |before| && before[i].kind == CA && before[i].id != id ==>
      (cert, before[i].data) !in pki.verifies
    requires forall i, j :: 0 <= i < j < |before| ==> before[i].id != before[j].id
    ensures !AcceptedBy(pki, after, cert)
  {
    forall k | 0 <= k < |after| && after[k].kind == CA ensures (cert, after[k].data) !in pki.verifies {
      OtherRowsStay(before, id, after, after[k]);
    }
  }

  // ---- Whole runs ----

  /** MFADeleteCRL keeps all sessions, so the row it deletes has to be safe to drop.
      A CRL always is. */
  predicate SafeChange(s: Store, c: Change) {
    c.DeleteCRL? ==> var i := IndexOf(s.certs, c.id); i.Some? ==> SafeToDrop(s.certs, i.value)
  }

  /** A safe change keeps every live session justified. */
  lemma SafeChangeKeeps(pki: Pki, s: Store, c: Change)
    requires Justified(pki, s) && SafeChange(s, c)
    ensures Justified(pki, Apply(pki, s, c))
  {
    match c
    case CreateCA(id, data) =>
      if data in pki.cas { AppendKeeps(pki, s, CertRow(id, CA, data)); }
    case DeleteCRL(id) =>
      var i := IndexOf(s.certs, id);
      if i.Some? { SafeDropKeeps(pki, s, i.value); }
    case Login(session, cert) =>
      var s' := Apply(pki, s, c);
      forall x | x in s'.sessions ensures StoreAccepts(pki, s', s'.sessions[x]) {
        assert x in s.sessions ==> StoreAccepts(pki, s, s.sessions[x]);
      }
    case _ =>
  }

  lemma AppendKeeps(pki: Pki, s: Store, row: CertRow)
    requires row.kind == CA && Justified(pki, s)
    ensures Justified(pki, s.(certs := s.certs + [row]))
  {
    var s' := s.(certs := s.certs + [row]);
    OfKindConcat(s.certs, [row], CA);
    OfKindConcat(s.certs, [row], CRL);
    assert OfKind(s'.certs, CA) == OfKind(s.certs, CA) + [row.data] && OfKind(s'.certs, CRL) == OfKind(s.certs, CRL);
    forall session | session in s'.sessions ensures StoreAccepts(pki, s', s'.sessions[session]) {
      assert StoreAccepts(pki, s, s.sessions[session]);
      AppendCAKeeps(pki, s.sessions[session], OfKind(s.certs, CA), OfKind(s.certs, CRL), row.data);
    }
  }

  function Run(pki: Pki, s: Store, changes: seq<Change>): Store {
    if changes == [] then s else Apply(pki, Run(pki, s, changes[..|changes| - 1]), changes[|changes| - 1])
  }

  /** After any sequence of the four operations and of logins, with every MFADeleteCRL
      naming a row that is safe to drop, every live session is still justified. */
  lemma {:induction false} RunKeepsJustified(pki: Pki, s: Store, changes: seq<Change>)
    requires Justified(pki, s)
    requires forall i :: 0 <= i < |changes| ==> SafeChange(Run(pki, s, changes[..i]), changes[i])
    ensures Justified(pki, Run(pki, s, changes))
  {
    if changes != [] {
      var n := |changes| - 1;
      forall i | 0 <= i < n ensures SafeChange(Run(pki, s, changes[..n][..i]), changes[..n][i]) {
        assert changes[..n][..i] == changes[..i];
      }
      RunKeepsJustified(pki, s, changes[..n]);
      SafeChangeKeeps(pki, Run(pki, s, changes[..n]), changes[n]);
    }
  }

  // ---- The condition is exact ----

  /** The operations that store the rows of a table, in order. */
  function Creations(certs: seq<CertRow>): seq<Change> {
    if certs == [] then []
    else
      var n := |certs| - 1;
      var row := certs[n];
      Creations(certs[..n]) + [if row.kind == CA then CreateCA(row.id, row.data) else CreateCRL(row.id, row.data)]
  }

  /** Everything stored parses, as the operations that store it demand. */
  ghost predicate AllParse(pki: Pki, certs: seq<CertRow>) {
    forall k :: 0 <= k < |certs| ==> if certs[k].kind == CA then certs[k].data in pki.cas else certs[k].data in pki.crls
  }

  /** Any table of data that parses can be stored. */
  lemma {:induction false} CreationsStore(pki: Pki, certs: seq<CertRow>)
    requires AllParse(pki, certs)
    ensures Run(pki, Store([], map[]), Creations(certs)) == Store(certs, map[])
  {
    if certs != [] {
      var n := |certs| - 1;
      CreationsStore(pki, certs[..n]);
      var before := Creations(certs[..n]);
      assert Creations(certs)[..|before|] == before;
      assert certs == certs[..n] + [certs[n]];
    }
  }

  lemma {:induction false} ParseByKind(pki: Pki, certs: seq<CertRow>)
    requires forall ca :: ca in OfKind(certs, CA) ==> ca in pki.cas
    requires forall crl :: crl in OfKind(certs, CRL) ==> crl in pki.crls
    ensures AllParse(pki, certs)
  {
    if certs != [] {
      var n := |certs| - 1;
      assert certs == certs[..n] + [certs[n]];
      ParseByKind(pki, certs[..n]);
      assert certs[n].data in OfKind(certs, certs[n].kind);
    }
  }

  /** The run that stores the given rows and then logs in once. */
  function LoginOver(pki: Pki, certs: seq<CertRow>, session: string, cert: Raw): Store {
    Run(pki, Store([], map[]), Creations(certs) + [Login(session, cert)])
  }

  /** Dropping a row that is not safe to drop shuts out a certificate, under data that parses. */
  lemma UnsafeDropLoses(certs: seq<CertRow>, i: int) returns (pki: Pki, cert: Raw)
    requires 0 <= i < |certs| && !SafeToDrop(certs, i)
    ensures AllParse(pki, certs)
    ensures Accepts(pki, cert, OfKind(certs, CA), OfKind(certs, CRL))
    ensures !Accepts(pki, cert, OfKind(Dropped(certs, i), CA), OfKind(Dropped(certs, i), CRL))
  {
    var cas, crls, p := OfKind(certs, CA), OfKind(certs, CRL), |OfKind(certs[..i], CA)|;
    DropFromKind(certs, i, CA);
    DropFromKind(certs, i, CRL);
    RemoveOtherCALoses(cas, crls, p);
    pki, cert := LoadsUpTo(cas, crls, p), cas[p];
    ParseByKind(pki, certs);
  }

  /** Where the condition fails, some reading of the data makes it wrong: storing the
      rows and logging in gives a justified session, which the call leaves unjustified. */
  lemma UnsafeChangeLoses(certs: seq<CertRow>, c: Change) returns (pki: Pki, cert: Raw)
    requires !SafeChange(Store(certs, map[]), c)
    ensures var s := LoginOver(pki, certs, "s", cert);
      s == Store(certs, map["s" := cert]) && Justified(pki, s) && !Justified(pki, Apply(pki, s, c))
  {
    var i := IndexOf(certs, c.id).value;
    pki, cert := UnsafeDropLoses(certs, i);
    CreationsStore(pki, certs);
    LoginStores(pki, certs, cert);
    var s' := Store(Dropped(certs, i), map["s" := cert]);
    assert Apply(pki, Store(certs, map["s" := cert]), c) == s';
    assert !StoreAccepts(pki, s', s'.sessions["s"]);
  }

  lemma LoginStores(pki: Pki, certs: seq<CertRow>, cert: Raw)
    requires Run(pki, Store([], map[]), Creations(certs)) == Store(certs, map[])
    requires Accepts(pki, cert, OfKind(certs, CA), OfKind(certs, CRL))
    ensures LoginOver(pki, certs, "s", cert) == Store(certs, map["s" := cert])
    ensures Justified(pki, Store(certs, map["s" := cert]))
  {
    var changes := Creations(certs) + [Login("s", cert)];
    assert changes[..|changes| - 1] == Creations(certs);
  }

  /** However the stored data reads, a change keeps every justified session exactly
      when it is safe: an MFADeleteCRL has to delete a CRL or a redundant CA. */
  lemma SafeExactly(certs: seq<CertRow>, c: Change)
    ensures SafeChange(Store(certs, map[]), c) <==> forall pki, cert :: KeepsLogin(pki, certs, cert, c)
  {
    if SafeChange(Store(certs, map[]), c) {
      forall pki, cert ensures KeepsLogin(pki, certs, cert, c) {
        if Logged(pki, certs, cert) {
          SafeChangeKeeps(pki, LoginOver(pki, certs, "s", cert), c);
        }
      }
    } else {
      var pki, cert := UnsafeChangeLoses(certs, c);
      assert !KeepsLogin(pki, certs, cert, c);
    }
  }

  /** Storing the rows and logging in succeeds, and gives a justified session. */
  ghost predicate Logged(pki: Pki, certs: seq<CertRow>, cert: Raw) {
    var s := LoginOver(pki, certs, "s", cert);
    s == Store(certs, map["s" := cert]) && Justified(pki, s)
  }

  ghost predicate KeepsLogin(pki: Pki, certs: seq<CertRow>, cert: Raw, c: Change) {
    Logged(pki, certs, cert) ==> Justified(pki, Apply(pki, LoginOver(pki, certs, "s", cert), c))
  }
}
