/** Reading a registry-addressable digest out of a kubelet imageID, and the reference a human should see. */
module ImageIds {
  import opened Options

  predicate IsSpace(c: char) {
    c == ' ' || c == '\t' || c == '\n' || c == '\r' || c == '\U{B}' || c == '\U{C}'
  }

  function TrimLeft(s: string): string {
    if s != "" && IsSpace(s[0]) then TrimLeft(s[1..]) else s
  }

  function TrimRight(s: string): string {
    if s != "" && IsSpace(s[|s| - 1]) then TrimRight(s[..|s| - 1]) else s
  }

  /** strings.TrimSpace on ASCII white space. */
  function Trim(s: string): string {
    TrimRight(TrimLeft(s))
  }

  /** What follows the first "://", if there is one. */
  function AfterScheme(s: string): Option<string> {
    if |s| < 3 then None
    else if s[0] == ':' && s[1] == '/' && s[2] == '/' then Some(s[3..])
    else AfterScheme(s[1..])
  }

  /** What follows the last '@', if there is one. */
  function AfterAt(s: string): Option<string> {
    if '@' !in s then None
    else
      assert s != "";
      match AfterAt(s[1..]) case Some(t) => Some(t) case None => Some(s[1..])
  }

  function LowerChar(c: char): char {
    if 'A' <= c <= 'Z' then (c as int + 32) as char else c
  }

  function Lower(s: string): string {
    seq(|s|, i requires 0 <= i < |s| => LowerChar(s[i]))
  }

  predicate IsHex(c: char) {
    '0' <= c <= '9' || 'a' <= c <= 'f'
  }

  /** By their ASCII codes: the lower-case hex digits, Go's white space, and the 26 capitals, which are lowered. */
  lemma {:induction false} CharsExact(c: char)
    ensures IsHex(c) <==> 48 <= c as int <= 57 || 97 <= c as int <= 102
    ensures IsSpace(c) <==> 9 <= c as int <= 13 || c as int == 32
    ensures LowerChar(c) as int - c as int == if 65 <= c as int <= 90 then 32 else 0
  {
  }

  const PREFIX := "sha256:"

  /** ^sha256:[0-9a-f]{64}$ */
  predicate IsDigest(s: string) {
    |s| == 71 && s[..7] == PREFIX && forall i :: 7 <= i < 71 ==> IsHex(s[i])
  }

  /** The digest an imageID names, or None when it is unresolvable. */
  function Normalized(imageID: string): Option<string> {
    var id := Trim(imageID);
    if id == "" then None
    else
      var rest := match AfterScheme(id) case Some(t) => t case None => id;
      match AfterAt(rest)
      case Some(t) => Checked(Lower(t))
      case None => if AfterScheme(id).Some? then None else Checked(Lower(rest))
  }

  function Checked(id: string): Option<string> {
    if IsDigest(id) then Some(id) else None
  }

  // ---------- canonical digests ----------

  lemma {:induction false} DigestIsPlain(d: string)
    requires IsDigest(d)
    ensures Trim(d) == d && Lower(d) == d && '@' !in d && '/' !in d
  {
    forall i | 0 <= i < 71 ensures LowerChar(d[i]) == d[i] && d[i] != '@' && d[i] != '/' && !IsSpace(d[i]) {
      if i < 7 { assert d[i] == d[..7][i] == PREFIX[i]; }
    }
    assert Lower(d) == d;
  }

  lemma {:induction false} NoScheme(s: string)
    requires '/' !in s
    ensures AfterScheme(s).None?
  {
    if |s| >= 3 {
      assert s[1] in s && forall c :: c in s[1..] ==> c in s;
      NoScheme(s[1..]);
    }
  }

  /** Whatever is resolved is canonical, and resolving it again gives it back. */
  lemma {:induction false} NormalizedIsCanonical(imageID: string)
    requires Normalized(imageID).Some?
    ensures IsDigest(Normalized(imageID).value)
    ensures Normalized(Normalized(imageID).value) == Normalized(imageID)
  {
    var d := Normalized(imageID).value;
    DigestIsPlain(d);
    NoScheme(d);
  }

  lemma {:induction false} AfterAtLast(a: string, d: string)
    requires '@' !in d
    ensures AfterAt(a + ['@'] + d) == Some(d)
  {
    var s := a + ['@'] + d;
    assert s[|a|] == '@';
    if a == "" {
      assert s[1..] == d;
    } else {
      assert s[1..] == a[1..] + ['@'] + d;
      AfterAtLast(a[1..], d);
    }
  }

  lemma {:induction false} AfterSchemeKeepsTail(a: string, d: string)
    requires '/' !in d
    ensures match AfterScheme(a + ['@'] + d) case None => true case Some(t) => exists b :: t == b + ['@'] + d
  {
    var s := a + ['@'] + d;
    if a == "" {
      assert '/' !in s;
      NoScheme(s);
    } else if |s| >= 3 && s[0] == ':' && s[1] == '/' && s[2] == '/' {
      assert forall i :: |a| < i < |s| ==> s[i] == d[i - |a| - 1] && s[i] in d;
      assert |a| >= 3;
      assert s[3..] == a[3..] + ['@'] + d;
    } else {
      assert s[1..] == a[1..] + ['@'] + d;
      AfterSchemeKeepsTail(a[1..], d);
    }
  }

  /** A reference pinned to a digest resolves to it, in any letter case, with or without a scheme in front. */
  lemma {:induction false} PinnedResolves(a: string, d: string)
    requires a == "" || !IsSpace(a[0])
    requires IsDigest(Lower(d)) && '@' !in d && '/' !in d && Trim(d) == d
    ensures Normalized(a + ['@'] + d) == Some(Lower(d))
  {
    var s := a + ['@'] + d;
    TrimEnds(s, d);
    AfterAtLast(a, d);
    AfterSchemeKeepsTail(a, d);
    if t :| AfterScheme(s) == Some(t) {
      var b :| t == b + ['@'] + d;
      AfterAtLast(b, d);
    }
  }

  lemma {:induction false} TrimEnds(s: string, d: string)
    requires d != "" && Trim(d) == d && |d| <= |s| && s[|s| - |d|..] == d && !IsSpace(s[0])
    ensures Trim(s) == s
  {
    TrimRightShorter(TrimLeft(d));
    TrimLeftShorter(d);
    assert s[|s| - 1] == d[|d| - 1];
  }

  lemma {:induction false} TrimRightShorter(s: string)
    ensures |TrimRight(s)| <= |s|
    ensures |TrimRight(s)| == |s| && s != "" ==> !IsSpace(s[|s| - 1])
  {
    if s != "" && IsSpace(s[|s| - 1]) { TrimRightShorter(s[..|s| - 1]); }
  }

  lemma {:induction false} TrimLeftShorter(s: string)
    ensures |TrimLeft(s)| <= |s|
    ensures |TrimLeft(s)| == |s| ==> TrimLeft(s) == s
  {
    if s != "" && IsSpace(s[0]) { TrimLeftShorter(s[1..]); }
  }

  /** A scheme with no '@' after it is a local image id, whatever follows: never a digest. */
  lemma {:induction false} LocalIDIsUnresolvable(scheme: string, id: string)
    requires '@' !in id
    requires var s := scheme + "://" + id; Trim(s) == s && AfterScheme(s) == Some(id)
    ensures Normalized(scheme + "://" + id).None?
  {
  }

  // ---------- exactly which digests are read out ----------

  predicate AllSpace(s: string) {
    forall c :: c in s ==> IsSpace(c)
  }

  /** Trimming takes white space off both ends and leaves none there. */
  lemma {:induction false} TrimExact(s: string) returns (a: string, b: string)
    ensures s == a + Trim(s) + b && AllSpace(a) && AllSpace(b)
    ensures Trim(s) != "" ==> !IsSpace(Trim(s)[0]) && !IsSpace(Trim(s)[|Trim(s)| - 1])
  {
    a := TrimLeftExact(s);
    b := TrimRightExact(TrimLeft(s));
    assert s == a + (Trim(s) + b);
    if Trim(s) != "" { assert TrimLeft(s)[0] == Trim(s)[0]; }
  }

  lemma {:induction false} TrimLeftExact(s: string) returns (a: string)
    ensures s == a + TrimLeft(s) && AllSpace(a) && (TrimLeft(s) != "" ==> !IsSpace(TrimLeft(s)[0]))
  {
    a := "";
    if s != "" && IsSpace(s[0]) {
      var rest := TrimLeftExact(s[1..]);
      a := [s[0]] + rest;
      assert s == [s[0]] + s[1..];
    }
  }

  lemma {:induction false} TrimRightExact(s: string) returns (b: string)
    ensures s == TrimRight(s) + b && AllSpace(b)
    ensures TrimRight(s) != "" ==> !IsSpace(TrimRight(s)[|TrimRight(s)| - 1])
  {
    b := "";
    if s != "" && IsSpace(s[|s| - 1]) {
      var rest := TrimRightExact(s[..|s| - 1]);
      b := rest + [s[|s| - 1]];
      assert s == s[..|s| - 1] + [s[|s| - 1]];
    }
  }

  lemma {:induction false} TrimTwice(s: string)
    ensures Trim(Trim(s)) == Trim(s)
  {
    var a, b := TrimExact(s);
  }

  lemma {:induction false} AfterAtSplits(s: string) returns (a: string)
    requires AfterAt(s).Some?
    ensures s == a + ['@'] + AfterAt(s).value
  {
    match AfterAt(s[1..])
    case Some(t) =>
      var b := AfterAtSplits(s[1..]);
      a := [s[0]] + b;
      assert s == [s[0]] + s[1..];
    case None =>
      a := "";
      NoAtLeft(s[1..]);
      assert s == [s[0]] + s[1..];
  }

  lemma {:induction false} NoAtLeft(s: string)
    ensures AfterAt(s).None? <==> '@' !in s
  {
  }

  lemma {:induction false} AfterSchemeSplits(s: string) returns (b: string)
    requires AfterScheme(s).Some?
    ensures s == b + AfterScheme(s).value
  {
    if s[0] == ':' && s[1] == '/' && s[2] == '/' {
      b := s[..3];
    } else {
      var c := AfterSchemeSplits(s[1..]);
      b := [s[0]] + c;
      assert s == [s[0]] + s[1..];
    }
  }

  /** The imageID, trimmed, is the digest in some letter case, or ends in an at sign and the digest. */
  ghost predicate Names(imageID: string, d: string) {
    exists u :: Lower(u) == d && (Trim(imageID) == u || exists a :: Trim(imageID) == a + ['@'] + u)
  }

  lemma {:induction false} CaseOfDigestIsPlain(u: string)
    requires IsDigest(Lower(u))
    ensures '@' !in u && '/' !in u && Trim(u) == u && u != ""
  {
    DigestIsPlain(Lower(u));
    forall i | 0 <= i < |u| ensures u[i] != '@' && u[i] != '/' && !IsSpace(u[i]) {
      assert Lower(u)[i] == LowerChar(u[i]);
      if i < 7 { assert Lower(u)[i] == Lower(u)[..7][i] == PREFIX[i]; }
    }
  }

  lemma {:induction false} ReadIsNamed(imageID: string, d: string)
    requires Normalized(imageID) == Some(d)
    ensures IsDigest(d) && Names(imageID, d)
  {
    var id := Trim(imageID);
    match AfterScheme(id)
    case None => RestIsNamed(imageID, "", id, d);
    case Some(rest) =>
      var b := AfterSchemeSplits(id);
      RestIsNamed(imageID, b, rest, d);
  }

  /** The digest stands behind the last at sign of what follows the scheme, or is all there is. */
  lemma {:induction false} RestIsNamed(imageID: string, b: string, rest: string, d: string)
    requires Trim(imageID) == b + rest
    requires if AfterAt(rest).Some? then Lower(AfterAt(rest).value) == d else b == "" && Lower(rest) == d
    ensures Names(imageID, d)
  {
    if AfterAt(rest).Some? {
      var a := AfterAtSplits(rest);
      EndsNamed(imageID, b, a, AfterAt(rest).value);
    } else {
      assert b + rest == rest;
    }
  }

  lemma {:induction false} EndsNamed(imageID: string, b: string, a: string, u: string)
    requires Trim(imageID) == b + (a + ['@'] + u)
    ensures Names(imageID, Lower(u))
  {
    assert Trim(imageID) == (b + a) + ['@'] + u;
  }

  lemma {:induction false} PlainIsRead(imageID: string, u: string)
    requires IsDigest(Lower(u)) && Trim(imageID) == u
    ensures Normalized(imageID) == Some(Lower(u))
  {
    CaseOfDigestIsPlain(u);
    NoScheme(u);
    NoAtLeft(u);
  }

  lemma {:induction false} PinnedIsRead(imageID: string, a: string, u: string)
    requires IsDigest(Lower(u)) && Trim(imageID) == a + ['@'] + u
    ensures Normalized(imageID) == Some(Lower(u))
  {
    var x, y := TrimExact(imageID);
    CaseOfDigestIsPlain(u);
    TrimTwice(imageID);
    assert a != "" ==> Trim(imageID)[0] == a[0];
    PinnedResolves(a, u);
    assert Normalized(imageID) == Normalized(Trim(imageID));
  }

  /** A digest is read out of an imageID exactly if the imageID names it. */
  lemma {:induction false} NormalizedExact(imageID: string, d: string)
    ensures Normalized(imageID) == Some(d) <==> IsDigest(d) && Names(imageID, d)
  {
    if Normalized(imageID) == Some(d) { ReadIsNamed(imageID, d); }
    if IsDigest(d) && Names(imageID, d) {
      var u :| Lower(u) == d && (Trim(imageID) == u || exists a :: Trim(imageID) == a + ['@'] + u);
      if Trim(imageID) == u {
        PlainIsRead(imageID, u);
      } else {
        var a :| Trim(imageID) == a + ['@'] + u;
        PinnedIsRead(imageID, a, u);
      }
    }
  }

  // ---------- the reference to show ----------

  predicate IsAnyHex(c: char) {
    IsHex(c) || 'A' <= c <= 'F'
  }

  predicate SixtyFourHex(hex: string) {
    |hex| == 64 && forall i :: 0 <= i < 64 ==> IsAnyHex(hex[i])
  }

  /** Sixty-four hex digits in any case, with or without the algorithm: an image without a name. */
  predicate IsBareID(s: string) {
    SixtyFourHex(if |s| >= 7 && s[..7] == PREFIX then s[7..] else s)
  }

  /** A bare id is nothing but sixty-four hex digits, with or without the algorithm in front. */
  lemma {:induction false} BareIDExact(s: string)
    ensures IsBareID(s) <==> SixtyFourHex(s) || exists hex :: SixtyFourHex(hex) && s == PREFIX + hex
  {
    if |s| >= 7 && s[..7] == PREFIX {
      assert s == PREFIX + s[7..] && s[..7][1] == s[1] == PREFIX[1];
      assert !IsAnyHex(s[1]);
    }
    forall hex | s == PREFIX + hex ensures s[..7] == PREFIX && s[7..] == hex {}
  }

  /** The status image if it is a name, else the spec image, else the bare id. */
  function DisplayRef(statusImage: string, specImage: string): string {
    var status := Trim(statusImage);
    if status != "" && !IsBareID(status) then status
    else if Trim(specImage) != "" then Trim(specImage)
    else status
  }

  /** Nothing is shown only when there is nothing, and a bare id only when there is nothing better. */
  lemma {:induction false} DisplayRefExact(statusImage: string, specImage: string)
    ensures DisplayRef(statusImage, specImage) == "" <==> Trim(statusImage) == "" && Trim(specImage) == ""
    ensures IsBareID(DisplayRef(statusImage, specImage)) ==> Trim(statusImage) == "" || IsBareID(Trim(statusImage))
  {
  }

  // ---------- the owner of a pod's ReplicaSet ----------

  function LastDash(s: string): Option<nat> {
    if s == "" then None else if s[|s| - 1] == '-' then Some(|s| - 1) else LastDash(s[..|s| - 1])
  }

  /** The Deployment name behind a ReplicaSet name: the pod-template-hash suffix is dropped, else the last segment. */
  function StripHash(name: string, hash: string): string {
    var suffix := ['-'] + hash;
    if hash != "" && |name| > |suffix| && name[|name| - |suffix|..] == suffix then name[..|name| - |suffix|]
    else match LastDash(name)
      case Some(i) => if 0 < i <= |name| then name[..i] else name
      case None => name
  }

  /** With the hash on the pod as a label, the Deployment's name comes back exactly, dashes and all. */
  lemma {:induction false} StripHashExact(deployment: string, hash: string)
    requires deployment != "" && hash != ""
    ensures StripHash(deployment + ['-'] + hash, hash) == deployment
  {
    var name := deployment + ['-'] + hash;
    assert name[|name| - |hash| - 1..] == ['-'] + hash;
  }

  /**
   * What a ReplicaSet's name says of its Deployment's: the hash comes off if it is there with something in front of it;
   * else the last segment, if anything is in front of that; else nothing.
   */
  ghost predicate Strips(rs: string, hash: string, name: string) {
    if hash != "" && exists d :: d != "" && rs == d + ['-'] + hash then rs == name + ['-'] + hash
    else if exists i :: 0 < i < |rs| && rs[i] == '-' then
      name != "" && exists seg: string :: '-' !in seg && rs == name + ['-'] + seg
    else name == rs
  }

  lemma {:induction false} LastDashFinds(s: string)
    ensures match LastDash(s)
            case None => '-' !in s
            case Some(i) => i < |s| && s[i] == '-' && '-' !in s[i + 1..]
  {
    if s != "" && s[|s| - 1] != '-' {
      LastDashFinds(s[..|s| - 1]);
      assert s == s[..|s| - 1] + [s[|s| - 1]];
      match LastDash(s[..|s| - 1])
      case None =>
      case Some(i) => assert s[i + 1..] == s[..|s| - 1][i + 1..] + [s[|s| - 1]];
    }
  }

  lemma {:induction false} LastDashIs(name: string, seg: string)
    requires '-' !in seg
    ensures LastDash(name + ['-'] + seg) == Some(|name|)
  {
    var s := name + ['-'] + seg;
    if seg != "" {
      assert s[|s| - 1] == seg[|seg| - 1];
      assert s[..|s| - 1] == name + ['-'] + seg[..|seg| - 1];
      LastDashIs(name, seg[..|seg| - 1]);
    }
  }

  lemma {:induction false} HashFound(rs: string, hash: string)
    ensures (|rs| > |hash| + 1 && rs[|rs| - |hash| - 1..] == ['-'] + hash) <==>
            exists d :: d != "" && rs == d + ['-'] + hash
  {
    if |rs| > |hash| + 1 && rs[|rs| - |hash| - 1..] == ['-'] + hash {
      var d := rs[..|rs| - |hash| - 1];
      assert rs == d + (['-'] + hash);
      assert rs == d + ['-'] + hash;
    }
    if d :| d != "" && rs == d + ['-'] + hash {
      assert rs[|rs| - |hash| - 1..] == ['-'] + hash;
    }
  }

  lemma {:induction false} StripSegment(rs: string, name: string)
    ensures name == (match LastDash(rs) case Some(i) => if 0 < i <= |rs| then rs[..i] else rs case None => rs) <==>
            if exists i :: 0 < i < |rs| && rs[i] == '-'
            then name != "" && exists seg: string :: '-' !in seg && rs == name + ['-'] + seg
            else name == rs
  {
    LastDashFinds(rs);
    match LastDash(rs)
    case None => assert forall i :: 0 < i < |rs| ==> rs[i] in rs;
    case Some(k) =>
      assert rs == rs[..k] + ['-'] + rs[k + 1..];
      forall i | k < i < |rs| ensures rs[i] != '-' { assert rs[i] == rs[k + 1..][i - k - 1]; }
      if seg: string :| '-' !in seg && rs == name + ['-'] + seg { LastDashIs(name, seg); }
  }

  /** StripHash computes the name the ReplicaSet's name says. */
  lemma {:induction false} StripsExact(rs: string, hash: string, name: string)
    ensures name == StripHash(rs, hash) <==> Strips(rs, hash, name)
  {
    HashFound(rs, hash);
    StripSegment(rs, name);
    if hash != "" && exists d :: d != "" && rs == d + ['-'] + hash {
      assert rs == rs[..|rs| - |hash| - 1] + (['-'] + hash);
    }
  }
}
