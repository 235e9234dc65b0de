/** Self-delimiting lengths: one byte below 255, otherwise groups of seven bits. */
module Lengths {
  import opened Lexicographic

  /** A decoded value and how many bytes it took, or the exception. */
  datatype Decoded<+T> = Bad | Decoded(value: T, used: nat)

  function Power128(k: nat): (p: nat)
    ensures p >= 1
  {
    if k == 0 then 1 else 128 * Power128(k - 1)
  }

  /** Seven bits a byte, low ones first; the last byte has its top bit set. */
  function Groups(n: nat): (s: Bytes)
    ensures s != []
  {
    if n < 128 then [n + 128] else [n % 128] + Groups(n / 128)
  }

  function LengthCode(len: nat): (s: Bytes)
    ensures s != []
  {
    if len < 255 then [len] else [255] + Groups(len - 255)
  }

  function ReadGroups(s: Bytes, limit: nat): (r: Decoded<nat>)
    ensures r.Decoded? ==> r.used <= |s|
  {
    if s == [] || limit == 0 then Bad
    else if s[0] >= 128 then Decoded(s[0] - 128, 1)
    else
      match ReadGroups(s[1..], limit - 1)
      case Bad => Bad
      case Decoded(rest, used) => Decoded(s[0] + 128 * rest, used + 1)
  }

  const MAX_GROUPS := 5

  /** With `check`, the length is refused when fewer bytes follow it. */
  function ReadLength(s: Bytes, check: bool): (r: Decoded<nat>)
    ensures r.Decoded? ==> r.used <= |s| && (check ==> r.used + r.value <= |s|)
  {
    if s == [] then Bad
    else
      var r :=
        if s[0] < 255 then Decoded(s[0], 1)
        else
          match ReadGroups(s[1..], MAX_GROUPS)
          case Bad => Bad
          case Decoded(n, used) => Decoded(n + 255, used + 1);
      if r.Decoded? && check && r.value > |s| - r.used then Bad else r
  }

  method EncodeLength(len: nat) returns (result: Bytes)
    ensures result == LengthCode(len)
  {
    hide Groups;
    if len < 255 {
      return [len];
    }
    result := [255];
    var n: nat := len - 255;
    hide LengthCode;
    while true
      invariant result + Groups(n) == LengthCode(len)
      decreases n
    {
      GroupStep(n);
      var b := n % 128;
      n := n / 128;
      if n == 0 {
        result := result + [b + 128];
        return;
      }
      result := result + [b];
    }
  }

  lemma GroupStep(n: nat)
    ensures n / 128 <= n && (n / 128 == n ==> n == 0)
    ensures Groups(n) == if n / 128 == 0 then [n % 128 + 128] else [n % 128] + Groups(n / 128)
  {
  }

  /** What the groups still ahead add to the `k` groups already read, the next one with this weight. */
  ghost function Continued(len: nat, weight: nat, k: nat, r: Decoded<nat>): Decoded<nat> {
    match r
    case Bad => Bad
    case Decoded(rest, used) => Decoded(len + weight * rest, used + k)
  }

  lemma Distribute(weight: nat, low: nat, high: nat)
    ensures weight * (low + 128 * high) == weight * low + (weight * 128) * high
  {
  }

  /** How one more group moves the reading on. */
  lemma ContinueGroup(s: Bytes, len: nat, weight: nat, k: nat)
    requires k <= MAX_GROUPS
    ensures Continued(len, weight, k, ReadGroups(s, MAX_GROUPS - k))
         == if s == [] || k == MAX_GROUPS then Bad
            else if s[0] >= 128 then Decoded(len + weight * (s[0] - 128), k + 1)
            else Continued(len + weight * s[0], weight * 128, k + 1, ReadGroups(s[1..], MAX_GROUPS - k - 1))
  {
    if s != [] && k < MAX_GROUPS && s[0] < 128 {
      var r := ReadGroups(s[1..], MAX_GROUPS - k - 1);
      if r.Decoded? {
        Distribute(weight, s[0], r.value);
      }
    }
  }

  method DecodeGroups(s: Bytes, pos: nat) returns (r: Decoded<nat>)
    requires pos <= |s|
    ensures r == ReadGroups(s[pos..], MAX_GROUPS)
  {
    hide Continued, ReadGroups;
    var len: nat, k: nat, weight: nat := 0, 0, 1;
    ghost var ahead := s[pos..];
    ContinueStart(ReadGroups(ahead, MAX_GROUPS));
    assert ahead[0..] == ahead;
    while true
      invariant k <= MAX_GROUPS && k <= |ahead|
      invariant Continued(len, weight, k, ReadGroups(ahead[k..], MAX_GROUPS - k)) == ReadGroups(ahead, MAX_GROUPS)
      decreases MAX_GROUPS - k
    {
      ContinueGroup(ahead[k..], len, weight, k);
      if pos + k == |s| || k == MAX_GROUPS {
        return Bad;
      }
      var ch: int := s[pos + k];
      assert ahead[k..][0] == ch && ahead[k..][1..] == ahead[k + 1..];
      len := len + weight * (ch % 128);
      k, weight := k + 1, weight * 128;
      if ch >= 128 {
        return Decoded(len, k);
      }
    }
  }

  lemma ContinueStart(r: Decoded<nat>)
    ensures Continued(0, 1, 0, r) == r
  {
  }

  method DecodeLength(s: Bytes, pos: nat, check: bool) returns (r: Decoded<nat>)
    requires pos <= |s|
    ensures r == ReadLength(s[pos..], check)
  {
    if pos == |s| {
      return Bad;
    }
    r := Decoded(s[pos], 1);
    if s[pos] == 255 {
      assert s[pos..][1..] == s[pos + 1..];
      var groups := DecodeGroups(s, pos + 1);
      if groups.Bad? {
        return Bad;
      }
      r := Decoded(groups.value + 255, groups.used + 1);
    }
    if check && r.value > |s| - (pos + r.used) {
      return Bad;
    }
  }

  /** Groups decode to themselves before any suffix, if and only if they are not too many. */
  lemma {:induction false} GroupsRoundTrip(n: nat, limit: nat, suffix: Bytes)
    ensures ReadGroups(Groups(n) + suffix, limit)
         == if limit > 0 && n < Power128(limit) then Decoded(n, |Groups(n)|) else Bad
  {
    var s := Groups(n) + suffix;
    if limit > 0 && n >= 128 {
      assert s[1..] == Groups(n / 128) + suffix;
      GroupsRoundTrip(n / 128, limit - 1, suffix);
    }
  }

  lemma FiveGroups()
    ensures Power128(MAX_GROUPS) == 0x8_0000_0000
  {
    assert Power128(5) == 128 * (128 * (128 * (128 * (128 * Power128(0)))));
  }

  const LENGTH_LIMIT: nat := 0x8_0000_0000 + 255

  /** A length decodes to itself before any suffix exactly when it is below the limit. */
  lemma LengthRoundTrip(len: nat, suffix: Bytes)
    ensures ReadLength(LengthCode(len) + suffix, false)
         == if len < LENGTH_LIMIT then Decoded(len, |LengthCode(len)|) else Bad
    ensures ReadLength(LengthCode(len) + suffix, true)
         == if len < LENGTH_LIMIT && len <= |suffix| then Decoded(len, |LengthCode(len)|) else Bad
  {
    hide Groups, ReadGroups, Power128;
    if len >= 255 {
      assert (LengthCode(len) + suffix)[1..] == Groups(len - 255) + suffix;
      GroupsRoundTrip(len - 255, MAX_GROUPS, suffix);
      FiveGroups();
    }
  }

  // ------------------------------------------------------- strings with lengths

  function Chunk(v: Bytes): Bytes {
    LengthCode(|v|) + v
  }

  /** The next string: its length, then that many bytes. */
  function ReadChunk(s: Bytes): (r: Decoded<Bytes>)
    ensures r.Decoded? ==> 0 < r.used <= |s| && |r.value| < r.used && r.value == s[r.used - |r.value|..r.used]
  {
    match ReadLength(s, true)
    case Bad => Bad
    case Decoded(len, used) => Decoded(s[used..used + len], used + len)
  }

  predicate Fits(v: Bytes) {
    |v| < LENGTH_LIMIT
  }

  lemma ChunkRoundTrip(v: Bytes, suffix: Bytes)
    ensures ReadChunk(Chunk(v) + suffix) == if Fits(v) then Decoded(v, |Chunk(v)|) else Bad
  {
    LengthRoundTrip(|v|, v + suffix);
    assert Chunk(v) + suffix == LengthCode(|v|) + (v + suffix);
  }

  /** Reads the string at `pos`, and never looks past the end of `s`. */
  method DecodeChunk(s: Bytes, pos: nat) returns (r: Decoded<Bytes>)
    requires pos <= |s|
    ensures r == ReadChunk(s[pos..])
  {
    var len := DecodeLength(s, pos, true);
    if len.Bad? {
      return Bad;
    }
    var start := pos + len.used;
    r := Decoded(s[start..start + len.value], len.used + len.value);
    assert r.value == s[pos..][len.used..len.used + len.value];
  }
}
