/**
 Go slices of strings: a view of a backing array with a length and a capacity.
 Appending writes into the backing array while the capacity allows it, so two
 slices over one array can overwrite each other's elements.
 */
module GoSlices {
  datatype Slice = Slice(arr: array<string>, len: nat, cap: nat)

  ghost predicate Valid(s: Slice) { s.len <= s.cap <= s.arr.Length }

  ghost function Contents(s: Slice): (r: seq<string>)
    requires Valid(s)
    reads s.arr
  {
    s.arr[..s.len]
  }

  /** make([]string, 0, capacity) */
  method Make(capacity: nat) returns (s: Slice)
    ensures Valid(s) && fresh(s.arr) && Contents(s) == [] && s.cap == capacity
  {
    var arr := new string[capacity];
    s := Slice(arr, 0, capacity);
  }

  /** s[:len(s):len(s)] */
  function Clip(s: Slice): (r: Slice) { s.(cap := s.len) }

  /** append(s, xs...): in place while the capacity allows, otherwise on a new array of some larger capacity. */
  method Append(s: Slice, xs: seq<string>) returns (r: Slice)
    requires Valid(s)
    modifies s.arr
    ensures Valid(r) && r.len == s.len + |xs| && Contents(r) == old(Contents(s)) + xs
    ensures s.len + |xs| <= s.cap ==> r.arr == s.arr && r.cap == s.cap
    ensures s.len + |xs| > s.cap ==> fresh(r.arr)
    ensures s.arr[..s.len] == old(s.arr[..s.len])
    ensures s.len + |xs| > s.cap ==> s.arr[..] == old(s.arr[..])
  {
    if s.len + |xs| <= s.cap {
      forall i | 0 <= i < |xs| {
        s.arr[s.len + i] := xs[i];
      }
      r := s.(len := s.len + |xs|);
    } else {
      var cap: nat :| cap >= s.len + |xs|;
      var arr := new string[cap];
      forall i | 0 <= i < s.len {
        arr[i] := s.arr[i];
      }
      forall i | 0 <= i < |xs| {
        arr[s.len + i] := xs[i];
      }
      r := Slice(arr, s.len + |xs|, cap);
    }
  }
}
