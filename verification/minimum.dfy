// The first least value of a list.

module Minimum {

  method ArgMin(v: seq<real>) returns (at: nat)
    requires v != []
    ensures at < |v| && forall k :: 0 <= k < |v| ==> v[at] <= v[k]
    ensures forall k :: 0 <= k < at ==> v[at] < v[k]
  {
    at := 0;
    for k := 1 to |v|
      invariant at < k && forall j :: 0 <= j < k ==> v[at] <= v[j]
      invariant forall j :: 0 <= j < at ==> v[at] < v[j]
    {
      if v[k] < v[at] {
        at := k;
      }
    }
  }
}
