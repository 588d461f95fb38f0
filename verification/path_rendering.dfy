/** Storage locations as the paths the host sees, and the proof that no two
    locations share a path: the kernel model keys its store by location on the
    strength of it. */
module PathRendering {
  import opened Bytes
  import opened Paths

  // ----- Hexadecimal

  function HexDigit(d: nat): (c: char)
    requires d < 16
    ensures c != '/' && HexDigitValue(c) == d
  {
    if d < 10 then '0' + (d as char) else 'a' + ((d - 10) as char)
  }

  function HexDigitValue(c: char): nat
  {
    if '0' <= c <= '9' then c as nat - '0' as nat
    else if 'a' <= c <= 'f' then c as nat - 'a' as nat + 10
    else 0
  }

  /** `format!("{:0width$x}", n)`. */
  function HexMin(n: nat, width: nat): (s: string)
    ensures '/' !in s
    ensures HexValue(s) == n
    ensures |s| >= width
    decreases n, width
  {
    if n < 16 && width <= 1 then [HexDigit(n)]
    else HexMin(n / 16, if width == 0 then 0 else width - 1) + [HexDigit(n % 16)]
  }

  function HexValue(s: string): nat
  {
    if s == [] then 0 else 16 * HexValue(s[..|s| - 1]) + HexDigitValue(s[|s| - 1])
  }

  /** `hex::encode`. */
  function HexBytes(bs: Bytes): (s: string)
    ensures |s| == 2 * |bs|
  {
    if bs == [] then [] else [HexDigit(bs[0] / 16), HexDigit(bs[0] % 16)] + HexBytes(bs[1..])
  }

  lemma {:induction false} HexBytesInjective(a: Bytes, b: Bytes)
    requires HexBytes(a) == HexBytes(b)
    ensures a == b
  {
    assert |a| == |b|;
    if a == [] {
    } else {
      var s, t := HexBytes(a), HexBytes(b);
      assert s[0] == t[0] && s[1] == t[1];
      assert a[0] == b[0];
      assert s[2..] == HexBytes(a[1..]) && t[2..] == HexBytes(b[1..]);
      HexBytesInjective(a[1..], b[1..]);
    }
  }

  // ----- Rendering

  function Prefix(p: Path): string
  {
    match p
    case RawInputCount => "/tzel/v1/stats/raw_input_count"
    case RawInputBytes => "/tzel/v1/stats/raw_input_bytes"
    case LastInputLevel => "/tzel/v1/state/last_input_level"
    case LastInputId => "/tzel/v1/state/last_input_id"
    case LastInputLen => "/tzel/v1/state/last_input_len"
    case LastInputPayload => "/tzel/v1/state/last_input_payload"
    case LastResult => "/tzel/v1/state/last_result.bin"
    case FeeLevel => "/tzel/v1/state/fees/private_tx_level"
    case FeeCount => "/tzel/v1/state/fees/private_tx_count_in_level"
    case AuthDomain => "/tzel/v1/state/auth_domain"
    case Ticketer => "/tzel/v1/state/bridge/ticketer"
    case VerifierConfig => "/tzel/v1/state/verifier_config.bin"
    case TreeSize => "/tzel/v1/state/tree/size"
    case TreeRoot => "/tzel/v1/state/tree/root"
    case Branch(_) => "/tzel/v1/state/tree/branch/"
    case NoteBody(_) => "/tzel/v1/state/notes/"
    case NoteLen(_) => "/tzel/v1/state/notes/"
    case NoteChunk(_, _) => "/tzel/v1/state/notes/"
    case NullifierCount => "/tzel/v1/state/nullifiers/count"
    case Nullifier(_) => "/tzel/v1/state/nullifiers/by-key/"
    case NullifierAt(_) => "/tzel/v1/state/nullifiers/index/"
    case RootCount => "/tzel/v1/state/roots/count"
    case RootMarker(_) => "/tzel/v1/state/roots/by-key/"
    case RootAt(_) => "/tzel/v1/state/roots/index/"
    case WithdrawalCount => "/tzel/v1/state/withdrawals/count"
    case WithdrawalAt(_) => "/tzel/v1/state/withdrawals/index/"
    case Pool(_) => "/tzel/v1/state/deposits/balance/"
    case AppliedShield(_) => "/tzel/v1/state/shields/applied_cm/"
  }

  function Suffix(p: Path): string
  {
    match p
    case Branch(level) => HexMin(level, 2)
    case NoteBody(i) => HexMin(i, 16)
    case NoteLen(i) => HexMin(i, 16) + "/len"
    case NoteChunk(i, c) => HexMin(i, 16) + ("/chunk/" + HexMin(c, 8))
    case NullifierAt(i) => HexMin(i, 16)
    case RootAt(i) => HexMin(i, 16)
    case WithdrawalAt(i) => HexMin(i, 16)
    case Nullifier(k) => HexBytes(k)
    case RootMarker(k) => HexBytes(k)
    case Pool(k) => HexBytes(k)
    case AppliedShield(k) => HexBytes(k)
    case _ => ""
  }

  function Render(p: Path): string
  {
    Prefix(p) + Suffix(p)
  }

  // ----- Telling the prefixes apart

  /** The family a rendered path belongs to, read off a few of its characters. */
  function Family(s: string): nat
    requires |s| > 23
  {
    if s[13] == 's' then (if |s| > 25 && s[25] == 'c' then 1 else 2)
    else if s[15] == 'l' then
      (if s[20] == 'r' then 3
       else if |s| > 26 && s[26] == 'i' then 4
       else if |s| > 26 && s[26] == 'p' then 5
       else if |s| > 28 && s[28] == 'v' then 6 else 7)
    else if s[15] == 'f' then (if |s| > 31 && s[31] == 'l' then 8 else 9)
    else if s[15] == 'a' then 10
    else if s[15] == 'b' then 11
    else if s[15] == 'v' then 12
    else if s[15] == 't' then (if s[20] == 's' then 13 else if s[20] == 'r' then 14 else 15)
    else if s[15] == 'n' then
      (if s[16] == 'o' then 16
       else if |s| > 26 && s[26] == 'c' then 17
       else if |s| > 26 && s[26] == 'b' then 18 else 19)
    else if s[15] == 'r' then (if s[21] == 'c' then 20 else if s[21] == 'b' then 21 else 22)
    else if s[15] == 'w' then (if |s| > 27 && s[27] == 'c' then 23 else 24)
    else if s[15] == 'd' then 25
    else 26
  }

  function FamilyOf(p: Path): nat
  {
    match p
    case RawInputCount => 1
    case RawInputBytes => 2
    case LastResult => 3
    case LastInputId => 4
    case LastInputPayload => 5
    case LastInputLevel => 6
    case LastInputLen => 7
    case FeeLevel => 8
    case FeeCount => 9
    case AuthDomain => 10
    case Ticketer => 11
    case VerifierConfig => 12
    case TreeSize => 13
    case TreeRoot => 14
    case Branch(_) => 15
    case NoteBody(_) => 16
    case NoteLen(_) => 16
    case NoteChunk(_, _) => 16
    case NullifierCount => 17
    case Nullifier(_) => 18
    case NullifierAt(_) => 19
    case RootCount => 20
    case RootMarker(_) => 21
    case RootAt(_) => 22
    case WithdrawalCount => 23
    case WithdrawalAt(_) => 24
    case Pool(_) => 25
    case AppliedShield(_) => 26
  }

  lemma StatsFamilies(p: Path)
    requires p.RawInputCount? || p.RawInputBytes? || p.LastResult? || p.LastInputId?
    ensures |Render(p)| > 23 && Family(Render(p)) == FamilyOf(p)
  {
    hide HexMin, HexBytes;
    var a, s := Prefix(p), Render(p);
    assert forall i :: 0 <= i < |a| ==> s[i] == a[i];
    match p
    case RawInputCount =>
    case RawInputBytes =>
    case LastResult =>
    case LastInputId =>
  }

  lemma InputFamilies(p: Path)
    requires p.LastInputLevel? || p.LastInputLen? || p.LastInputPayload?
    ensures |Render(p)| > 23 && Family(Render(p)) == FamilyOf(p)
  {
    hide HexMin, HexBytes;
    var a, s := Prefix(p), Render(p);
    assert forall i :: 0 <= i < |a| ==> s[i] == a[i];
    match p
    case LastInputLevel =>
    case LastInputLen =>
    case LastInputPayload =>
  }

  lemma FeeFamilies(p: Path)
    requires p.FeeLevel? || p.FeeCount?
    ensures |Render(p)| > 23 && Family(Render(p)) == FamilyOf(p)
  {
    hide HexMin, HexBytes;
    var a, s := Prefix(p), Render(p);
    assert forall i :: 0 <= i < |a| ==> s[i] == a[i];
    match p
    case FeeLevel =>
    case FeeCount =>
  }

  lemma SettingFamilies(p: Path)
    requires p.AuthDomain? || p.Ticketer? || p.VerifierConfig?
    ensures |Render(p)| > 23 && Family(Render(p)) == FamilyOf(p)
  {
    hide HexMin, HexBytes;
    var a, s := Prefix(p), Render(p);
    assert forall i :: 0 <= i < |a| ==> s[i] == a[i];
    match p
    case AuthDomain =>
    case Ticketer =>
    case VerifierConfig =>
  }

  lemma TreeFamilies(p: Path)
    requires p.TreeSize? || p.TreeRoot? || p.Branch?
    ensures |Render(p)| > 23 && Family(Render(p)) == FamilyOf(p)
  {
    hide HexMin, HexBytes;
    var a, s := Prefix(p), Render(p);
    assert forall i :: 0 <= i < |a| ==> s[i] == a[i];
    match p
    case TreeSize =>
    case TreeRoot =>
    case Branch(_) =>
  }

  lemma NoteFamilies(p: Path)
    requires p.NoteBody? || p.NoteLen? || p.NoteChunk?
    ensures |Render(p)| > 23 && Family(Render(p)) == FamilyOf(p)
  {
    hide HexMin, HexBytes;
    var a, s := Prefix(p), Render(p);
    assert forall i :: 0 <= i < |a| ==> s[i] == a[i];
    match p
    case NoteBody(_) =>
    case NoteLen(_) =>
    case NoteChunk(_, _) =>
  }

  lemma NullifierFamilies(p: Path)
    requires p.NullifierCount? || p.Nullifier? || p.NullifierAt?
    ensures |Render(p)| > 23 && Family(Render(p)) == FamilyOf(p)
  {
    hide HexMin, HexBytes;
    var a, s := Prefix(p), Render(p);
    assert forall i :: 0 <= i < |a| ==> s[i] == a[i];
    match p
    case NullifierCount =>
    case Nullifier(_) =>
    case NullifierAt(_) =>
  }

  lemma RootFamilies(p: Path)
    requires p.RootCount? || p.RootMarker? || p.RootAt?
    ensures |Render(p)| > 23 && Family(Render(p)) == FamilyOf(p)
  {
    hide HexMin, HexBytes;
    var a, s := Prefix(p), Render(p);
    assert forall i :: 0 <= i < |a| ==> s[i] == a[i];
    match p
    case RootCount =>
    case RootMarker(_) =>
    case RootAt(_) =>
  }

  lemma OtherFamilies(p: Path)
    requires p.WithdrawalCount? || p.WithdrawalAt? || p.Pool? || p.AppliedShield?
    ensures |Render(p)| > 23 && Family(Render(p)) == FamilyOf(p)
  {
    hide HexMin, HexBytes;
    var a, s := Prefix(p), Render(p);
    assert forall i :: 0 <= i < |a| ==> s[i] == a[i];
    match p
    case WithdrawalCount =>
    case WithdrawalAt(_) =>
    case Pool(_) =>
    case AppliedShield(_) =>
  }

  lemma FamilyOfRendering(p: Path)
    ensures |Render(p)| > 23 && Family(Render(p)) == FamilyOf(p)
  {
    match p
    case RawInputCount => StatsFamilies(p);
    case RawInputBytes => StatsFamilies(p);
    case LastResult => StatsFamilies(p);
    case LastInputId => StatsFamilies(p);
    case LastInputLevel => InputFamilies(p);
    case LastInputLen => InputFamilies(p);
    case LastInputPayload => InputFamilies(p);
    case FeeLevel => FeeFamilies(p);
    case FeeCount => FeeFamilies(p);
    case AuthDomain => SettingFamilies(p);
    case Ticketer => SettingFamilies(p);
    case VerifierConfig => SettingFamilies(p);
    case TreeSize => TreeFamilies(p);
    case TreeRoot => TreeFamilies(p);
    case Branch(_) => TreeFamilies(p);
    case NoteBody(_) => NoteFamilies(p);
    case NoteLen(_) => NoteFamilies(p);
    case NoteChunk(_, _) => NoteFamilies(p);
    case NullifierCount => NullifierFamilies(p);
    case Nullifier(_) => NullifierFamilies(p);
    case NullifierAt(_) => NullifierFamilies(p);
    case RootCount => RootFamilies(p);
    case RootMarker(_) => RootFamilies(p);
    case RootAt(_) => RootFamilies(p);
    case WithdrawalCount => OtherFamilies(p);
    case WithdrawalAt(_) => OtherFamilies(p);
    case Pool(_) => OtherFamilies(p);
    case AppliedShield(_) => OtherFamilies(p);
  }

  /** Text up to the first '/' and what follows are determined by their concatenation. */
  lemma SplitAtSlash(a: string, s: string, b: string, t: string)
    requires '/' !in a && '/' !in b
    requires (s == "" || s[0] == '/') && (t == "" || t[0] == '/')
    requires a + s == b + t
    ensures a == b && s == t
  {
    var whole := a + s;
    assert forall i :: 0 <= i < |a| ==> whole[i] == a[i];
    assert forall i :: 0 <= i < |b| ==> whole[i] == b[i];
    assert |a| < |whole| ==> whole[|a|] == s[0];
    assert |b| < |whole| ==> whole[|b|] == t[0];
    assert |a| == |b|;
    assert whole[..|a|] == a && whole[|a|..] == s;
    assert whole[..|b|] == b && whole[|b|..] == t;
  }

  function NoteTail(p: Path): string
    requires p.NoteBody? || p.NoteLen? || p.NoteChunk?
  {
    match p
    case NoteBody(_) => ""
    case NoteLen(_) => "/len"
    case NoteChunk(_, c) => "/chunk/" + HexMin(c, 8)
  }

  lemma NotePathsDistinct(p: Path, q: Path)
    requires p.NoteBody? || p.NoteLen? || p.NoteChunk?
    requires q.NoteBody? || q.NoteLen? || q.NoteChunk?
    requires Suffix(p) == Suffix(q)
    ensures p == q
  {
    hide HexMin;
    var a, b := HexMin(p.index, 16), HexMin(q.index, 16);
    var s, t := NoteTail(p), NoteTail(q);
    assert Suffix(p) == a + s && Suffix(q) == b + t;
    SplitAtSlash(a, s, b, t);
    hide Suffix, NoteTail;
    TailsDistinct(p, q);
  }

  lemma TailsDistinct(p: Path, q: Path)
    requires p.NoteBody? || p.NoteLen? || p.NoteChunk?
    requires q.NoteBody? || q.NoteLen? || q.NoteChunk?
    requires p.index == q.index && NoteTail(p) == NoteTail(q)
    ensures p == q
  {
    hide HexMin;
    TailShape(p);
    TailShape(q);
    if p.NoteChunk? && q.NoteChunk? {
      var s, t := NoteTail(p), NoteTail(q);
      assert s[7..] == HexMin(p.chunk, 8) && t[7..] == HexMin(q.chunk, 8);
    }
  }

  /** What a note location ends in tells its kind. */
  lemma TailShape(p: Path)
    requires p.NoteBody? || p.NoteLen? || p.NoteChunk?
    ensures NoteTail(p) == "" <==> p.NoteBody?
    ensures p.NoteLen? ==> NoteTail(p)[1] == 'l'
    ensures p.NoteChunk? ==> |NoteTail(p)| > 7 && NoteTail(p)[1] == 'c'
  {
  }

  /** One location of each family. */
  function Example(family: nat): Path
  {
    if family == 1 then RawInputCount
    else if family == 2 then RawInputBytes
    else if family == 3 then LastResult
    else if family == 4 then LastInputId
    else if family == 5 then LastInputPayload
    else if family == 6 then LastInputLevel
    else if family == 7 then LastInputLen
    else if family == 8 then FeeLevel
    else if family == 9 then FeeCount
    else if family == 10 then AuthDomain
    else if family == 11 then Ticketer
    else if family == 12 then Path.VerifierConfig
    else if family == 13 then TreeSize
    else if family == 14 then TreeRoot
    else if family == 15 then Branch(0)
    else if family == 16 then NoteBody(0)
    else if family == 17 then NullifierCount
    else if family == 18 then Nullifier(ZERO)
    else if family == 19 then NullifierAt(0)
    else if family == 20 then RootCount
    else if family == 21 then RootMarker(ZERO)
    else if family == 22 then RootAt(0)
    else if family == 23 then WithdrawalCount
    else if family == 24 then WithdrawalAt(0)
    else if family == 25 then Pool(ZERO)
    else AppliedShield(ZERO)
  }

  lemma PrefixOfInputFamily(p: Path)
    requires FamilyOf(p) <= 7
    ensures Prefix(p) == Prefix(Example(FamilyOf(p)))
  {
  }

  lemma PrefixOfSettingFamily(p: Path)
    requires 7 < FamilyOf(p) <= 15
    ensures Prefix(p) == Prefix(Example(FamilyOf(p)))
  {
  }

  lemma PrefixOfListFamily(p: Path)
    requires 15 < FamilyOf(p) <= 21
    ensures Prefix(p) == Prefix(Example(FamilyOf(p)))
  {
  }

  lemma PrefixOfLastFamily(p: Path)
    requires FamilyOf(p) > 21
    ensures Prefix(p) == Prefix(Example(FamilyOf(p)))
  {
  }

  lemma PrefixOfFamily(p: Path)
    ensures Prefix(p) == Prefix(Example(FamilyOf(p)))
  {
    hide Prefix, FamilyOf, Example;
    if FamilyOf(p) <= 7 {
      PrefixOfInputFamily(p);
    } else if FamilyOf(p) <= 15 {
      PrefixOfSettingFamily(p);
    } else if FamilyOf(p) <= 21 {
      PrefixOfListFamily(p);
    } else {
      PrefixOfLastFamily(p);
    }
  }

  lemma FamilyFixesPrefix(p: Path, q: Path)
    requires FamilyOf(p) == FamilyOf(q)
    ensures Prefix(p) == Prefix(q)
  {
    hide Prefix, FamilyOf, Example;
    PrefixOfFamily(p);
    PrefixOfFamily(q);
  }

  lemma FamilyAndSuffixFixPath(p: Path, q: Path)
    requires FamilyOf(p) == FamilyOf(q) && Suffix(p) == Suffix(q)
    ensures p == q
  {
    hide HexMin, HexBytes;
    match p
    case NoteBody(_) => NotePathsDistinct(p, q);
    case NoteLen(_) => NotePathsDistinct(p, q);
    case NoteChunk(_, _) => NotePathsDistinct(p, q);
    case Nullifier(k) => HexBytesInjective(k, q.key);
    case RootMarker(k) => HexBytesInjective(k, q.key);
    case Pool(k) => HexBytesInjective(k, q.key);
    case AppliedShield(k) => HexBytesInjective(k, q.key);
    case _ =>
  }

  lemma CancelPrefix(a: string, s: string, t: string)
    requires a + s == a + t
    ensures s == t
  {
    assert (a + s)[|a|..] == s && (a + t)[|a|..] == t;
  }

  /** No two storage locations share a path. */
  lemma RenderInjective(p: Path, q: Path)
    requires Render(p) == Render(q)
    ensures p == q
  {
    assert FamilyOf(p) == FamilyOf(q) by {
      FamilyOfRendering(p);
      FamilyOfRendering(q);
    }
    assert Suffix(p) == Suffix(q) by {
      FamilyFixesPrefix(p, q);
      CancelPrefix(Prefix(p), Suffix(p), Suffix(q));
    }
    FamilyAndSuffixFixPath(p, q);
  }

  // ----- The store, by location and by path

  /** `host` is the same store as the host keeps it, keyed by rendered path. */
  ghost predicate HostHolds(render: Path -> string, host: map<string, Bytes>, store: Store)
  {
    && (forall p :: p in store ==> render(p) in host && host[render(p)] == store[p])
    && (forall s :: s in host ==> exists p :: p in store && render(p) == s)
  }

  lemma FaithfulUnderInjection(render: Path -> string, host: map<string, Bytes>, store: Store, p: Path, value: Bytes)
    requires forall a, b :: render(a) == render(b) ==> a == b
    requires HostHolds(render, host, store)
    ensures render(p) in host <==> p in store
    ensures HostHolds(render, host[render(p) := value], store[p := value])
  {
    var s, host', store' := render(p), host[render(p) := value], store[p := value];
    forall q | q in store'
      ensures render(q) in host' && host'[render(q)] == store'[q]
    {
    }
    forall t | t in host'
      ensures exists q :: q in store' && render(q) == t
    {
      if t == s {
        assert p in store';
      } else {
        var q :| q in store && render(q) == t;
        assert q in store';
      }
    }
  }

  /** Keying by location is faithful: from equal stores, a read and a write
      through the rendered path do what the read and write by location do. */
  lemma StoreByLocationIsFaithful(host: map<string, Bytes>, store: Store, p: Path, value: Bytes)
    requires HostHolds(Render, host, store)
    ensures Render(p) in host <==> p in store
    ensures p in store ==> host[Render(p)] == store[p]
    ensures HostHolds(Render, host[Render(p) := value], store[p := value])
  {
    forall a, b | Render(a) == Render(b)
      ensures a == b
    {
      RenderInjective(a, b);
    }
    FaithfulUnderInjection(Render, host, store, p, value);
  }
}
