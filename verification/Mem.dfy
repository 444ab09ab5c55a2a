/** Growing buffers: `libbpf_add_mem` (btf.c, lines 141-176), allocation never failing. */
module Mem {

  /** The capacity after growth: a quarter more, at least 16, at most the limit, and enough. */
  function GrownCap(cap: nat, cur: nat, limit: nat, add: nat): nat {
    var n := cap + cap / 4;
    var n := if n < 16 then 16 else n;
    var n := if n > limit then limit else n;
    if n < cur + add then cur + add else n
  }

  /** Room for add more elements behind the first cur; refused only beyond the limit. */
  method AddMem<T>(data: seq<T>, cur: nat, limit: nat, add: nat, zero: T) returns (ok: bool, data': seq<T>)
    requires cur <= |data|
    ensures data <= data' && (ok <==> cur + add <= |data| || cur + add <= limit)
    ensures if ok then cur + add <= |data'| else data' == data
    ensures |data'| == |data| || |data'| <= limit
    ensures forall i :: |data| <= i < |data'| ==> data'[i] == zero
  {
    if cur + add <= |data| { return true, data; }
    if cur + add > limit { return false, data; }
    var newCnt := GrownCap(|data|, cur, limit, add);
    data' := data + seq(newCnt - |data|, _ => zero);
    ok := true;
  }
}
