// NUL-terminated strings inside a byte buffer.
module CString {
  import opened Bits

  // The position of the first NUL at or after p, or the end.
  function NameEnd(s: seq<U8>, p: nat): (q: nat)
    requires p <= |s|
    ensures p <= q <= |s|
    ensures q < |s| ==> s[q] == 0
    ensures forall i :: p <= i < q ==> s[i] != 0
    decreases |s| - p
  {
    if p == |s| || s[p] == 0 then p else NameEnd(s, p + 1)
  }

  function NameAt(s: seq<U8>, p: nat): seq<U8>
    requires p <= |s|
  {
    s[p..NameEnd(s, p)]
  }

  lemma {:induction false} NameFound(s: seq<U8>, p: nat, z: nat)
    requires p <= z < |s| && s[z] == 0
    requires forall i :: p <= i < z ==> s[i] != 0
    ensures NameEnd(s, p) == z
    decreases z - p
  {
    if p < z {
      NameFound(s, p + 1, z);
    }
  }

  // p + strlen(p)
  method ScanName(s: seq<U8>, start: nat) returns (p: nat)
    requires start <= |s|
    ensures p == NameEnd(s, start)
  {
    p := start;
    while p < |s| && s[p] != 0
      invariant start <= p <= |s|
      invariant NameEnd(s, p) == NameEnd(s, start)
    {
      p := p + 1;
    }
  }
}
