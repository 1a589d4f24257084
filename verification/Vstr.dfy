/** vstr.c: a byte string kept in a buffer of its own while it is short, and in an allocated one from then on. */
module Vstr {
  import opened Octets
  import opened VstrOrder

  const MAX_SMALL: nat := 23
  const MAX_LARGE: nat := 0xFF_FFFF_FFFF_FFFF

  /** The short form leaves one of 24 bytes for the count, the long form one of eight. */
  lemma Limits()
    ensures MAX_SMALL == 24 - 1 && MAX_LARGE == 0x1_0000_0000_0000_0000 / 256 - 1
  {
  }

  /** Where a C string ends. */
  function StrLen(cstr: seq<Byte>): (n: nat)
    requires 0 in cstr
    ensures n < |cstr| && cstr[n] == 0 && 0 !in cstr[..n]
  {
    if cstr[0] == 0 then 0
    else
      assert cstr == [cstr[0]] + cstr[1..];
      var n := StrLen(cstr[1..]);
      assert cstr[..n + 1] == [cstr[0]] + cstr[1..][..n];
      n + 1
  }

  ghost predicate ZeroFrom(a: seq<Byte>, i: nat) {
    forall k :: i <= k < |a| ==> a[k] == 0
  }

  /** `calloc` and `memcpy`. */
  method Allocate(cap: nat, bytes: seq<Byte>) returns (data: array<Byte>)
    requires |bytes| <= cap
    ensures fresh(data) && data.Length == cap && data[..|bytes|] == bytes && ZeroFrom(data[..], |bytes|)
  {
    data := new Byte[cap];
    forall i | 0 <= i < cap {
      data[i] := if i < |bytes| then bytes[i] else 0;
    }
  }

  /** `memcpy` of `bytes` to offset `at`. */
  method Write(data: array<Byte>, at: nat, bytes: seq<Byte>)
    requires at + |bytes| <= data.Length
    modifies data
    ensures data[..at + |bytes|] == old(data[..at]) + bytes
    ensures old(ZeroFrom(data[..], at)) ==> ZeroFrom(data[..], at + |bytes|)
  {
    ghost var was := data[..];
    forall i | 0 <= i < |bytes| {
      data[at + i] := bytes[i];
    }
    assert forall k :: at + |bytes| <= k < data.Length ==> data[k] == was[k];
    assert forall k :: 0 <= k < at ==> data[k] == was[k];
  }

  lemma {:induction false} OnlyPrefixMatters(a: seq<Byte>, b: seq<Byte>, c: seq<Byte>, d: seq<Byte>, n: nat)
    requires c <= a && d <= b && n <= |c| && n <= |d|
    ensures StrNCmp(a, b, n) == StrNCmp(c, d, n)
    decreases n
  {
    if n > 0 {
      OnlyPrefixMatters(a[1..], b[1..], c[1..], d[1..], n - 1);
    }
  }

  class Vstr {
    var isLarge: bool
    var smallAvail: nat
    const small: array<Byte>
    var data: array?<Byte>
    var cap: nat
    var len: nat

    /** From the end of the string to the end of its buffer all bytes are zero, and in the large form
        there is at least one of them. */
    ghost predicate Valid()
      reads this, small, data
    {
      && small.Length == MAX_SMALL
      && smallAvail <= MAX_SMALL
      && (!isLarge ==> data == null && ZeroFrom(small[..], MAX_SMALL - smallAvail))
      && (isLarge ==>
            && data != null && data != small && cap == data.Length <= 2 * (MAX_LARGE + 1)
            && len < cap && len <= MAX_LARGE && ZeroFrom(data[..], len))
    }

    ghost function Contents(): (s: seq<Byte>)
      requires Valid()
      reads this, small, data
    {
      if isLarge then data[..len] else small[..MAX_SMALL - smallAvail]
    }

    /** `vstr_new`. */
    constructor ()
      ensures Valid() && Contents() == [] && !isLarge && fresh(small)
    {
      small := new Byte[MAX_SMALL](_ => 0);
      isLarge, smallAvail, data, cap, len := false, MAX_SMALL, null, 0, 0;
    }

    /** `vstr_new_len`: an empty string with room for `n` bytes. */
    constructor NewLen(n: nat)
      requires n <= MAX_LARGE
      ensures Valid() && Contents() == [] && (isLarge <==> n > MAX_SMALL) && (isLarge ==> cap == n + 1)
      ensures fresh(small) && (isLarge ==> fresh(data))
    {
      small := new Byte[MAX_SMALL](_ => 0);
      smallAvail, data, cap, len, isLarge := MAX_SMALL, null, 0, 0, false;
      new;
      if n > MAX_SMALL {
        data := Allocate(n + 1, []);
        cap, len, isLarge := n + 1, 0, true;
      }
    }

    /** `vstr_from_len`.  A string of `MAX_LARGE` bytes or more is refused; what comes back instead is not
        the empty string but 23 zero bytes. */
    constructor FromLen(cstr: seq<Byte>, n: nat)
      requires n <= |cstr|
      ensures Valid() && (isLarge <==> MAX_SMALL < n < MAX_LARGE)
      ensures Contents() == if n < MAX_LARGE then cstr[..n] else seq(MAX_SMALL, _ => 0)
      ensures fresh(small) && (isLarge ==> fresh(data))
    {
      small := new Byte[MAX_SMALL](_ => 0);
      smallAvail, data, cap, len, isLarge := 0, null, 0, 0, false;
      new;
      Store(cstr[..n]);
    }

    /** `vstr_from`: the bytes before the first NUL. */
    constructor From(cstr: seq<Byte>)
      requires 0 in cstr
      ensures Valid() && (isLarge <==> MAX_SMALL < StrLen(cstr) < MAX_LARGE)
      ensures Contents() == if StrLen(cstr) < MAX_LARGE then cstr[..StrLen(cstr)] else seq(MAX_SMALL, _ => 0)
      ensures fresh(small) && (isLarge ==> fresh(data))
    {
      small := new Byte[MAX_SMALL](_ => 0);
      smallAvail, data, cap, len, isLarge := 0, null, 0, 0, false;
      new;
      Store(cstr[..StrLen(cstr)]);
    }

    /** The common part of the two constructors above, on a record of zeros. */
    method Store(bytes: seq<Byte>)
      requires !isLarge && data == null && small.Length == MAX_SMALL && smallAvail == 0 && ZeroFrom(small[..], 0)
      modifies this, small
      ensures Valid() && (isLarge <==> MAX_SMALL < |bytes| < MAX_LARGE) && (isLarge ==> fresh(data))
      ensures Contents() == if |bytes| < MAX_LARGE then bytes else seq(MAX_SMALL, _ => 0)
    {
      if |bytes| > MAX_SMALL {
        MakeLarge(bytes);
        if cap == 0 {
          return;
        }
        isLarge := true;
        return;
      }
      Write(small, 0, bytes);
      smallAvail := MAX_SMALL - |bytes|;
    }

    /** `vstr_make_lg_len`: no capacity means failure. */
    method MakeLarge(bytes: seq<Byte>)
      modifies `data, `cap, `len
      ensures (cap == 0 <==> |bytes| >= MAX_LARGE) && (cap == 0 ==> data == old(data))
      ensures cap != 0 ==> data != null && fresh(data) && cap == data.Length == |bytes| + 1 && len == |bytes|
      ensures cap != 0 ==> data[..len] == bytes && ZeroFrom(data[..], len)
    {
      if |bytes| >= MAX_LARGE {
        cap, len := 0, 0;
        return;
      }
      data := Allocate(|bytes| + 1, bytes);
      len, cap := |bytes|, |bytes| + 1;
    }

    /** `vstr_make_lg`: the whole small buffer, with room for one more byte. */
    method MakeLargeFromFull(bytes: seq<Byte>)
      requires |bytes| == MAX_SMALL
      modifies `data, `cap, `len
      ensures data != null && fresh(data) && cap == data.Length == MAX_SMALL + 2 && len == MAX_SMALL
      ensures data[..len] == bytes && ZeroFrom(data[..], len)
    {
      len, cap := MAX_SMALL, MAX_SMALL + 2;
      data := Allocate(cap, bytes);
    }

    /** `vstr_realloc_lg` and `vstr_realloc_lg_len`, which differ in the new capacity. */
    method Realloc(newCap: nat)
      requires Valid() && isLarge && cap <= newCap <= 2 * (MAX_LARGE + 1)
      modifies `data, `cap
      ensures Valid() && Contents() == old(Contents()) && cap == newCap && fresh(data)
    {
      data := Allocate(newCap, data[..len]);
      cap := newCap;
    }

    /** `vstr_lg_push_char`: the buffer doubles when only the byte for the NUL is left. */
    method LargePushChar(c: Byte) returns (res: int)
      requires Valid() && isLarge
      modifies this, data
      ensures Valid() && isLarge && (data == old(data) || fresh(data))
      ensures res == if old(len) < MAX_LARGE then 0 else -1
      ensures Contents() == if res == 0 then old(Contents()) + [c] else old(Contents())
      ensures cap == if old(len) == old(cap) - 1 then 2 * old(cap) else old(cap)
    {
      if len == cap - 1 {
        Realloc(cap * 2);
      }
      if len + 1 > MAX_LARGE {
        return -1;
      }
      Write(data, len, [c]);
      len := len + 1;
      return 0;
    }

    /** `vstr_lg_push_string`. */
    method LargePushString(str: seq<Byte>) returns (res: int)
      requires Valid() && isLarge
      modifies this, data
      ensures Valid() && isLarge && (data == old(data) || fresh(data))
      ensures res == if old(len) + |str| <= MAX_LARGE then 0 else -1
      ensures Contents() == if res == 0 then old(Contents()) + str else old(Contents())
      ensures cap == if res == 0 && old(len) + |str| >= old(cap) then old(cap) + |str| else old(cap)
    {
      if len + |str| > MAX_LARGE {
        return -1;
      }
      if len + |str| > cap - 1 {
        Realloc(cap + |str|);
      }
      Write(data, len, str);
      len := len + |str|;
      return 0;
    }

    /** `vstr_push_char`. */
    method PushChar(c: Byte) returns (res: int)
      requires Valid()
      modifies this, small, data
      ensures Valid() && (data == old(data) || fresh(data))
      ensures isLarge <==> old(isLarge) || |old(Contents())| == MAX_SMALL
      ensures res == if |old(Contents())| < MAX_LARGE then 0 else -1
      ensures Contents() == if res == 0 then old(Contents()) + [c] else old(Contents())
    {
      if isLarge {
        res := LargePushChar(c);
        return;
      }
      if smallAvail > 0 {
        Write(small, MAX_SMALL - smallAvail, [c]);
        smallAvail := smallAvail - 1;
        return 0;
      }
      MakeLargeFromFull(small[..]);
      isLarge := true;
      res := LargePushChar(c);
    }

    /** `vstr_push_string`.  A refused string leaves the contents alone, but a short string may have moved
        to the large form. */
    method PushString(cstr: seq<Byte>) returns (res: int)
      requires Valid() && 0 in cstr
      modifies this, small, data
      ensures Valid() && (data == old(data) || fresh(data))
      ensures isLarge <==> old(isLarge) || |old(Contents())| + StrLen(cstr) > MAX_SMALL
      ensures res == if |old(Contents())| + StrLen(cstr) <= MAX_LARGE then 0 else -1
      ensures Contents() == if res == 0 then old(Contents()) + cstr[..StrLen(cstr)] else old(Contents())
    {
      var n := StrLen(cstr);
      if isLarge {
        res := LargePushString(cstr[..n]);
        return;
      }
      if n <= smallAvail {
        Write(small, MAX_SMALL - smallAvail, cstr[..n]);
        smallAvail := smallAvail - n;
        return 0;
      }
      MakeLarge(small[..MAX_SMALL - smallAvail]);
      isLarge := true;
      res := LargePushString(cstr[..n]);
    }

    /** Either push. */
    method PushOne(p: Push) returns (res: int)
      requires Valid() && (p.Str? ==> 0 in p.cstr)
      modifies this, small, data
      ensures Valid() && (data == old(data) || fresh(data))
      ensures res == if |old(Contents())| + |Bytes(p)| <= MAX_LARGE then 0 else -1
      ensures Contents() == if res == 0 then old(Contents()) + Bytes(p) else old(Contents())
    {
      match p
      case Char(c) => res := PushChar(c);
      case Str(cstr) => res := PushString(cstr);
    }

    /** `vstr_len`. */
    function Len(): (n: nat)
      requires Valid()
      reads this, small, data
      ensures n == |Contents()|
    {
      if isLarge then len else MAX_SMALL - smallAvail
    }

    /** `vstr_data`: the bytes a caller can read from the returned pointer.  After the small buffer comes
        the byte that holds `is_large` and `small_avail`: it is the NUL of a full small buffer. */
    function Data(): (s: seq<Byte>)
      requires Valid()
      reads this, small, data
      ensures Contents() < s && s[|Contents()|] == 0
    {
      if isLarge then data[..] else small[..] + [2 * smallAvail]
    }

    /** `vstr_cmp`. */
    static function Cmp(a: Vstr, b: Vstr): (r: int)
      requires a.Valid() && b.Valid()
      reads a, a.small, a.data, b, b.small, b.data
      ensures r == Compare(a.Contents(), b.Contents())
    {
      var alen, blen, astr, bstr := a.Len(), b.Len(), a.Data(), b.Data();
      OnlyPrefixMatters(astr, bstr, a.Contents(), b.Contents(), if alen < blen then alen else blen);
      if alen == blen then StrNCmp(astr, bstr, alen)
      else if alen < blen then
        var cmp := StrNCmp(astr, bstr, alen);
        if cmp == 0 then 1 else cmp
      else
        var cmp := StrNCmp(astr, bstr, blen);
        if cmp == 0 then -1 else cmp
    }
  }

  // ---------- runs ----------

  datatype Push = Char(c: Byte) | Str(cstr: seq<Byte>)

  function Bytes(p: Push): seq<Byte>
    requires p.Str? ==> 0 in p.cstr
  {
    if p.Char? then [p.c] else p.cstr[..StrLen(p.cstr)]
  }

  ghost predicate Terminated(ops: seq<Push>) {
    forall i :: 0 <= i < |ops| ==> ops[i].Str? ==> 0 in ops[i].cstr
  }

  /** What is in the string after a run of pushes; a push that does not fit is refused and the run goes on. */
  function Run(s: seq<Byte>, ops: seq<Push>): seq<Byte>
    requires Terminated(ops)
  {
    if ops == [] then s
    else
      var n := |ops| - 1;
      var t := Run(s, ops[..n]);
      if |t| + |Bytes(ops[n])| <= MAX_LARGE then t + Bytes(ops[n]) else t
  }

  /** All bytes pushed, one push after the other. */
  function Pushed(ops: seq<Push>): seq<Byte>
    requires Terminated(ops)
  {
    if ops == [] then [] else Pushed(ops[..|ops| - 1]) + Bytes(ops[|ops| - 1])
  }

  /** Nothing is refused, and the string is the concatenation of all that was pushed, exactly when that
      fits. */
  lemma {:induction false} RunConcatenates(s: seq<Byte>, ops: seq<Push>)
    requires Terminated(ops) && |s| <= MAX_LARGE
    ensures |Run(s, ops)| <= MAX_LARGE && |Run(s, ops)| <= |s| + |Pushed(ops)|
    ensures Run(s, ops) == s + Pushed(ops) <==> |s| + |Pushed(ops)| <= MAX_LARGE
  {
    if ops == [] {
      assert s + Pushed(ops) == s;
    } else {
      hide Run, Pushed, Bytes, StrLen;
      var n := |ops| - 1;
      var before, bytes := Pushed(ops[..n]), Bytes(ops[n]);
      RunLast(s, ops);
      RunConcatenates(s, ops[..n]);
      assert s + (before + bytes) == s + before + bytes;
    }
  }

  lemma RunLast(s: seq<Byte>, ops: seq<Push>)
    requires Terminated(ops) && ops != []
    ensures var n := |ops| - 1;
            var t := Run(s, ops[..n]);
            && Run(s, ops) == (if |t| + |Bytes(ops[n])| <= MAX_LARGE then t + Bytes(ops[n]) else t)
            && Pushed(ops) == Pushed(ops[..n]) + Bytes(ops[n])
  {
  }

  lemma NothingPushed(s: seq<Byte>, ops: seq<Push>)
    requires Terminated(ops)
    ensures Run(s, ops[..0]) == s
  {
  }

  lemma RunStep(s: seq<Byte>, ops: seq<Push>, i: nat)
    requires Terminated(ops) && i < |ops|
    ensures var t := Run(s, ops[..i]);
            Run(s, ops[..i + 1]) == if |t| + |Bytes(ops[i])| <= MAX_LARGE then t + Bytes(ops[i]) else t
  {
    assert ops[..i + 1][..i] == ops[..i];
  }

  /** Every run of pushes on the object, through whichever forms it goes, is a run on its contents; a push
      returns 0 exactly when it still fits. */
  method PushAll(v: Vstr, ops: seq<Push>) returns (results: seq<int>)
    requires v.Valid() && Terminated(ops)
    modifies v, v.small, v.data
    ensures v.Valid() && v.Contents() == Run(old(v.Contents()), ops) && |results| == |ops|
    ensures forall i :: 0 <= i < |ops| ==>
              results[i] == if |Run(old(v.Contents()), ops[..i])| + |Bytes(ops[i])| <= MAX_LARGE then 0 else -1
  {
    hide Vstr.Valid, Vstr.Contents, Run, Bytes, StrLen;
    ghost var start, data := v.Contents(), v.data;
    NothingPushed(start, ops);
    results := [];
    for i := 0 to |ops|
      invariant v.Valid() && (v.data == data || fresh(v.data))
      invariant v.Contents() == Run(start, ops[..i]) && |results| == i
      invariant forall j :: 0 <= j < i ==>
                  results[j] == if |Run(start, ops[..j])| + |Bytes(ops[j])| <= MAX_LARGE then 0 else -1
    {
      RunStep(start, ops, i);
      var res := v.PushOne(ops[i]);
      results := results + [res];
    }
    assert ops[..|ops|] == ops;
  }
}
