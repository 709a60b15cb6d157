/** Views into byte buffers, and appending to them in place. */
module Realloc {
  import opened Bytes
  import opened ByteArrays

  /** `length` bytes of the buffer, from `offset` on: what a Uint8Array is. */
  datatype View = View(buffer: array<byte>, offset: nat, length: nat)
  {
    ghost predicate Fits() {
      offset + length <= buffer.Length
    }

    ghost function Bytes(): (s: seq<byte>)
      requires Fits()
      reads buffer
      ensures |s| == length
    {
      buffer[offset..offset + length]
    }
  }

  function Max(a: nat, b: nat): nat {
    if a > b then a else b
  }

  /** There is space after the view. */
  method JustAppend(arr: View, data: View) returns (res: View)
    requires arr.Fits() && data.Fits() && arr.offset + arr.length + data.length <= arr.buffer.Length
    modifies arr.buffer
    ensures res == View(arr.buffer, arr.offset, arr.length + data.length)
    ensures res.Fits() && res.Bytes() == old(arr.Bytes()) + old(data.Bytes()) && arr.Bytes() == old(arr.Bytes())
  {
    ghost var was, bytes := arr.buffer[..], data.Bytes();
    Appended(was, arr.offset, arr.length, bytes);
    ViewOfAll(arr);
    Put(arr.buffer, arr.offset + arr.length, data.buffer[data.offset..data.offset + data.length]);
    Written(was, arr.buffer[..], arr.offset + arr.length, bytes);
    res := View(arr.buffer, arr.offset, arr.length + data.length);
    ViewOfAll(arr);
    ViewOfAll(res);
  }

  /** There is space after the view and before it. The data is copied first, if the shift is going to overwrite it. */
  method ShiftAndAppend(arr: View, data: View) returns (res: View)
    requires arr.Fits() && data.Fits() && arr.length + data.length <= arr.buffer.Length
    modifies arr.buffer
    ensures res == View(arr.buffer, 0, arr.length + data.length)
    ensures res.Fits() && res.Bytes() == old(arr.Bytes()) + old(data.Bytes())
  {
    var source := data;
    if data.buffer == arr.buffer && data.offset < arr.length {
      source := Snapshot(data);
    }
    Shift(arr, source);
    res := JustAppend(View(arr.buffer, 0, arr.length), source);
  }

  method Snapshot(data: View) returns (copy: View)
    requires data.Fits()
    ensures fresh(copy.buffer) && copy.Fits() && copy.Bytes() == data.Bytes() && copy.length == data.length
  {
    var buffer := new byte[data.length](
      i requires 0 <= i < data.length && data.Fits() reads data.buffer => data.buffer[data.offset + i]);
    copy := View(buffer, 0, data.length);
  }

  /** Moves the view to the beginning of its buffer; what is not in the way stays. */
  method Shift(arr: View, other: View)
    requires arr.Fits() && other.Fits()
    requires other.buffer == arr.buffer ==> other.offset >= arr.length
    modifies arr.buffer
    ensures View(arr.buffer, 0, arr.length).Bytes() == old(arr.Bytes()) && other.Bytes() == old(other.Bytes())
  {
    CopyWithin(arr.buffer, 0, arr.offset, arr.length);
    ghost var after := arr.buffer[..];
    assert after[..arr.length] == old(arr.Bytes());
    assert arr.buffer[0..arr.length] == after[..arr.length];
    if other.buffer == arr.buffer {
      assert other.Bytes() == after[other.offset..other.offset + other.length];
    }
  }

  /** There is not enough space. */
  method AppendToNew(arr: View, data: View, capacity: nat) returns (res: View)
    requires arr.Fits() && data.Fits() && arr.length + data.length <= capacity
    ensures fresh(res.buffer) && res.buffer.Length == capacity && res.offset == 0
    ensures res.Fits() && res.Bytes() == arr.Bytes() + data.Bytes()
  {
    var buffer := new byte[capacity];
    Put(buffer, 0, arr.buffer[arr.offset..arr.offset + arr.length]);
    var head := View(buffer, 0, arr.length);
    ViewOfAll(head);
    res := JustAppend(head, data);
  }

  lemma ViewOfAll(v: View)
    requires v.Fits()
    ensures v.Bytes() == v.buffer[..][v.offset..v.offset + v.length]
  {
  }

  /**
   Appends `data`, that can lie anywhere, in the same buffer too. What a view that begins its
   buffer shows is never touched: somebody may still be reading it.
   */
  method ReallocAppend(arr: View, data: View, withCapacity: bool) returns (res: View)
    requires arr.Fits() && data.Fits()
    modifies arr.buffer
    ensures res.Fits() && res.length == arr.length + data.length && res.Bytes() == old(arr.Bytes()) + old(data.Bytes())
    ensures res.buffer == arr.buffer || fresh(res.buffer)
    ensures res.offset == 0 || res.offset == arr.offset
    ensures arr.offset == 0 ==> arr.Bytes() == old(arr.Bytes())
    ensures fresh(res.buffer) ==> arr.buffer[..] == old(arr.buffer[..])
  {
    var space := arr.buffer.Length - arr.length - arr.offset;
    if space >= data.length {
      res := JustAppend(arr, data);
    } else if space + arr.offset >= data.length {
      res := ShiftAndAppend(arr, data);
    } else {
      res := AppendToNew(arr, data, if !withCapacity then arr.length + data.length
        else Max(arr.length + data.length + arr.length / 2, arr.length * 2));
    }
  }

  lemma Appended(whole: seq<byte>, offset: nat, length: nat, data: seq<byte>)
    requires offset + length + |data| <= |whole|
    ensures var after := whole[..offset + length] + data + whole[offset + length + |data|..];
      && after[offset..offset + length + |data|] == whole[offset..offset + length] + data
      && after[offset..offset + length] == whole[offset..offset + length]
  {
  }

  /** The view at the beginning of its buffer. */
  method ToFront(v: View) returns (res: View)
    requires v.Fits()
    modifies v.buffer
    ensures res == View(v.buffer, 0, v.length) && res.Bytes() == old(v.Bytes())
  {
    var none := new byte[0];
    Shift(v, View(none, 0, 0));
    res := View(v.buffer, 0, v.length);
  }

  /** The view with `banner` before it, in the same buffer if there is room. */
  method Prepend(v: View, banner: seq<byte>) returns (res: View)
    requires v.Fits()
    modifies v.buffer
    ensures res.Fits() && res.offset == 0 && res.Bytes() == banner + old(v.Bytes())
    ensures res.buffer == v.buffer || fresh(res.buffer)
  {
    var n := |banner|;
    if v.buffer.Length >= v.length + n {
      CopyWithin(v.buffer, n, v.offset, v.length);
      PutFirst(v.buffer, banner, v.length);
      res := View(v.buffer, 0, v.length + n);
    } else {
      var content := v.buffer[v.offset..v.offset + v.length];
      var buffer := new byte[v.length + n];
      Put(buffer, n, content);
      PutFirst(buffer, banner, v.length);
      res := View(buffer, 0, v.length + n);
    }
    ViewOfAll(res);
  }
}
