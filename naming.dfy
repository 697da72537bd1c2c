/** Deterministic load-balancer names: "k8s-", the sanitised group identity cut to a fixed width,
    "-", and the first ten hex characters of a SHA-256 digest over the cluster name, the group ID
    and the scheme. */
module LoadBalancerNaming {
  import opened Elbv2Model
  import opened IngressGroup

  /** The ASCII class [[:alnum:]]. */
  predicate IsAlnum(c: char)
  {
    ('0' <= c <= '9') || ('a' <= c <= 'z') || ('A' <= c <= 'Z')
  }

  /** Deletes every character outside [[:alnum:]]. */
  function Sanitize(s: string): (r: string)
    ensures |r| <= |s|
    ensures forall i :: 0 <= i < |r| ==> IsAlnum(r[i])
  {
    if s == [] then []
    else
      var front := Sanitize(s[..|s| - 1]);
      if IsAlnum(s[|s| - 1]) then front + [s[|s| - 1]] else front
  }

  /** A precision-limited string verb: at most n characters. */
  function Truncate(s: string, n: nat): (r: string)
    ensures |r| <= n && r <= s
    ensures |s| >= n ==> |r| == n
    ensures |s| <= n ==> r == s
  {
    if |s| <= n then s else s[..n]
  }

  function HexDigit(n: int): char
    requires 0 <= n < 16
  {
    "0123456789abcdef"[n]
  }

  /** Lower-case hexadecimal, two characters per byte. */
  function HexEncode(bytes: seq<Byte>): (r: string)
    ensures |r| == 2 * |bytes|
    ensures forall i :: 0 <= i < |r| ==> ('0' <= r[i] <= '9') || ('a' <= r[i] <= 'f')
  {
    if bytes == [] then [] else [HexDigit(bytes[0] / 16), HexDigit(bytes[0] % 16)] + HexEncode(bytes[1..])
  }

  /** The bytes fed to the digest, in order. */
  function DigestInput(clusterName: string, id: GroupID, scheme: LoadBalancerScheme): string
  {
    clusterName + id.String() + SchemeString(scheme)
  }

  function NameHash(clusterName: string, id: GroupID, scheme: LoadBalancerScheme, sha256: string -> Digest): string
  {
    HexEncode(sha256(DigestInput(clusterName, id, scheme)))
  }

  /** Characters a generated name may contain. */
  predicate NameChars(s: string)
  {
    forall i :: 0 <= i < |s| ==> IsAlnum(s[i]) || s[i] == '-'
  }

  /** Explicit groups: k8s-<17>-<10>; implicit groups: k8s-<8>-<8>-<10>. */
  function BuildLoadBalancerName(clusterName: string, id: GroupID, scheme: LoadBalancerScheme,
                                 sha256: string -> Digest): (r: string)
    ensures |r| <= 32
    ensures NameChars(r)
    ensures |r| >= 4 && r[..4] == "k8s-"
  {
    var uuid := NameHash(clusterName, id, scheme, sha256);
    var hash := Truncate(uuid, 10);
    PrefixChars(uuid, 10);
    if id.IsExplicit() then
      var payload := Truncate(Sanitize(id.name), 17);
      PrefixChars(Sanitize(id.name), 17);
      NameCharsConcat("k8s-", payload);
      NameCharsConcat("k8s-" + payload, "-");
      NameCharsConcat("k8s-" + payload + "-", hash);
      "k8s-" + payload + "-" + hash
    else
      var ns := Truncate(Sanitize(id.namespace), 8);
      var nm := Truncate(Sanitize(id.name), 8);
      PrefixChars(Sanitize(id.namespace), 8);
      PrefixChars(Sanitize(id.name), 8);
      NameCharsConcat("k8s-", ns);
      NameCharsConcat("k8s-" + ns, "-");
      NameCharsConcat("k8s-" + ns + "-", nm);
      NameCharsConcat("k8s-" + ns + "-" + nm, "-");
      NameCharsConcat("k8s-" + ns + "-" + nm + "-", hash);
      "k8s-" + ns + "-" + nm + "-" + hash
  }

  /** A prefix of an alphanumeric-or-hex string stays within the name characters. */
  lemma PrefixChars(s: string, n: nat)
    requires forall i :: 0 <= i < |s| ==> IsAlnum(s[i])
    ensures NameChars(Truncate(s, n))
  {
    var t := Truncate(s, n);
    assert forall i :: 0 <= i < |t| ==> t[i] == s[i];
  }

  lemma NameCharsConcat(a: string, b: string)
    requires NameChars(a) && NameChars(b)
    ensures NameChars(a + b)
  {
    forall i | 0 <= i < |a + b| ensures IsAlnum((a + b)[i]) || (a + b)[i] == '-' {
      if i < |a| { assert (a + b)[i] == a[i]; } else { assert (a + b)[i] == b[i - |a|]; }
    }
  }

  /** The hash suffix: exactly ten lower-case hex characters, encoding the first five digest bytes. */
  lemma HashSuffix(digest: Digest)
    ensures Truncate(HexEncode(digest), 10) == HexEncode(digest[..5])
    ensures |HexEncode(digest[..5])| == 10
    ensures NameChars(HexEncode(digest[..5]))
  {
    HexEncodePrefix(digest, 5);
    PrefixChars(HexEncode(digest[..5]), 10);
  }

  /** Every generated name fits the 32-character limit, uses only alphanumerics and '-',
      starts with "k8s-" and ends with '-' and ten hex characters of the digest. */
  lemma LoadBalancerNameShape(clusterName: string, id: GroupID, scheme: LoadBalancerScheme, sha256: string -> Digest)
    ensures
      var name := BuildLoadBalancerName(clusterName, id, scheme, sha256);
      && |name| <= 32
      && NameChars(name)
      && name[..4] == "k8s-"
      && |name| >= 15 && name[|name| - 11] == '-'
      && name[|name| - 10..] == HexEncode(sha256(DigestInput(clusterName, id, scheme))[..5])
  {
    var digest := sha256(DigestInput(clusterName, id, scheme));
    HashSuffix(digest);
    var hash := HexEncode(digest[..5]);
    var name := BuildLoadBalancerName(clusterName, id, scheme, sha256);
    if id.IsExplicit() {
      assert name == "k8s-" + Truncate(Sanitize(id.name), 17) + "-" + hash;
    } else {
      assert name == "k8s-" + Truncate(Sanitize(id.namespace), 8) + "-" + Truncate(Sanitize(id.name), 8) + "-" + hash;
    }
  }

  /** Sanitising is the identity exactly on strings that are already alphanumeric. */
  lemma {:induction false} SanitizeSpec(s: string)
    ensures (forall i :: 0 <= i < |s| ==> IsAlnum(s[i])) <==> Sanitize(s) == s
    decreases |s|
  {
    if s != [] {
      var n := |s| - 1;
      SanitizeSpec(s[..n]);
      assert s == s[..n] + [s[n]];
      if !IsAlnum(s[n]) {
        assert |Sanitize(s)| < |s|;
      }
    }
  }

  /** Sanitising works character by character: it distributes over concatenation. */
  lemma {:induction false} SanitizeConcat(a: string, b: string)
    ensures Sanitize(a + b) == Sanitize(a) + Sanitize(b)
    decreases |b|
  {
    if b == [] {
      assert a + b == a;
    } else {
      var n := |b| - 1;
      SanitizeConcat(a, b[..n]);
      assert (a + b)[..|a + b| - 1] == a + b[..n];
      assert (a + b)[|a + b| - 1] == b[n];
    }
  }

  lemma SanitizeIdempotent(s: string)
    ensures Sanitize(Sanitize(s)) == Sanitize(s)
  {
    SanitizeSpec(s);
    SanitizeSpec(Sanitize(s));
  }

  /** The first 2k hex characters encode the first k bytes. */
  lemma {:induction false} HexEncodePrefix(bytes: seq<Byte>, k: nat)
    requires k <= |bytes|
    ensures |HexEncode(bytes)| == 2 * |bytes|
    ensures HexEncode(bytes)[..2 * k] == HexEncode(bytes[..k])
    decreases k
  {
    if k > 0 {
      HexEncodePrefix(bytes[1..], k - 1);
      assert bytes[..k][1..] == bytes[1..][..k - 1];
    }
  }

  lemma HexDigitInjective(a: int, b: int)
    requires 0 <= a < 16 && 0 <= b < 16 && HexDigit(a) == HexDigit(b)
    ensures a == b
  {
  }

  /** Hex encoding loses nothing: different bytes give different text. */
  lemma {:induction false} HexEncodeInjective(a: seq<Byte>, b: seq<Byte>)
    requires HexEncode(a) == HexEncode(b)
    ensures a == b
    decreases |a|
  {
    if a != [] {
      var ha, hb := HexEncode(a), HexEncode(b);
      assert b != [];
      assert ha[0] == HexDigit(a[0] / 16) && ha[1] == HexDigit(a[0] % 16);
      assert hb[0] == HexDigit(b[0] / 16) && hb[1] == HexDigit(b[0] % 16);
      HexDigitInjective(a[0] / 16, b[0] / 16);
      HexDigitInjective(a[0] % 16, b[0] % 16);
      assert HexEncode(a[1..]) == ha[2..] == hb[2..] == HexEncode(b[1..]);
      HexEncodeInjective(a[1..], b[1..]);
      assert a == [a[0]] + a[1..] && b == [b[0]] + b[1..];
    }
  }

  /** Two names can only coincide when the first five digest bytes do: a change of cluster,
      group or scheme that changes those bytes changes the name. */
  lemma DistinctDigestsDistinctNames(c1: string, id1: GroupID, s1: LoadBalancerScheme,
                                     c2: string, id2: GroupID, s2: LoadBalancerScheme, sha256: string -> Digest)
    requires sha256(DigestInput(c1, id1, s1))[..5] != sha256(DigestInput(c2, id2, s2))[..5]
    ensures BuildLoadBalancerName(c1, id1, s1, sha256) != BuildLoadBalancerName(c2, id2, s2, sha256)
  {
    LoadBalancerNameShape(c1, id1, s1, sha256);
    LoadBalancerNameShape(c2, id2, s2, sha256);
    var n1 := BuildLoadBalancerName(c1, id1, s1, sha256);
    var n2 := BuildLoadBalancerName(c2, id2, s2, sha256);
    if n1 == n2 {
      HexEncodeInjective(sha256(DigestInput(c1, id1, s1))[..5], sha256(DigestInput(c2, id2, s2))[..5]);
    }
  }

  function Min(a: int, b: int): int
  {
    if a < b then a else b
  }

  /** Explicit groups: the name is "k8s-", the sanitised group name cut at 17 characters,
      "-" and the hash. */
  lemma ExplicitGroupName(clusterName: string, id: GroupID, scheme: LoadBalancerScheme, sha256: string -> Digest)
    returns (payload: string)
    requires id.IsExplicit()
    ensures payload <= Sanitize(id.name) && |payload| == Min(|Sanitize(id.name)|, 17)
    ensures BuildLoadBalancerName(clusterName, id, scheme, sha256) ==
      "k8s-" + payload + "-" + HexEncode(sha256(DigestInput(clusterName, id, scheme))[..5])
  {
    HashSuffix(sha256(DigestInput(clusterName, id, scheme)));
    payload := Truncate(Sanitize(id.name), 17);
  }

  /** Implicit groups: the name is "k8s-", the sanitised namespace and the sanitised name each
      cut at 8 characters, and the hash, joined by "-". */
  lemma ImplicitGroupName(clusterName: string, id: GroupID, scheme: LoadBalancerScheme, sha256: string -> Digest)
    returns (nsPart: string, namePart: string)
    requires !id.IsExplicit()
    ensures nsPart <= Sanitize(id.namespace) && |nsPart| == Min(|Sanitize(id.namespace)|, 8)
    ensures namePart <= Sanitize(id.name) && |namePart| == Min(|Sanitize(id.name)|, 8)
    ensures BuildLoadBalancerName(clusterName, id, scheme, sha256) ==
      "k8s-" + nsPart + "-" + namePart + "-" + HexEncode(sha256(DigestInput(clusterName, id, scheme))[..5])
  {
    HashSuffix(sha256(DigestInput(clusterName, id, scheme)));
    nsPart := Truncate(Sanitize(id.namespace), 8);
    namePart := Truncate(Sanitize(id.name), 8);
  }
}
