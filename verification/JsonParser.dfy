/** The parser of core/json.c: a cursor over the text, and blocks taken from the allocator. */
module JsonParser {
  import opened CTypes
  import opened Heap
  import opened Json
  import opened JsonStrings
  import T = JsonText

  // ---- The document tree -------------------------------------------------

  /** A NUL-terminated buffer in a heap block, with its decoded length. */
  datatype Buffer = Buffer(block: nat, text: seq<byte>)

  datatype Kind = KNull | KBool | KNum | KStr | KArr | KObj

  /** A JsonValue: its own block, its text buffer, and its key and value arrays. */
  datatype Dom = Dom(block: nat, kind: Kind, boolean: bool, str: Option<Buffer>,
                     keysBlock: nat, keys: seq<Buffer>, valsBlock: nat, vals: seq<Dom>)

  function TextBlock(b: Option<Buffer>): (m: multiset<nat>) {
    if b.Some? then Owned(b.value.block) else multiset{}
  }

  function KeyBlocks(keys: seq<Buffer>): (m: multiset<nat>) {
    if keys == [] then multiset{} else Owned(keys[0].block) + KeyBlocks(keys[1..])
  }

  /** Every block a tree holds. */
  function Blocks(d: Dom): (m: multiset<nat>)
    decreases d, 0
  {
    Owned(d.block) + Owned(d.keysBlock) + Owned(d.valsBlock) + TextBlock(d.str) + KeyBlocks(d.keys) + AllBlocks(d.vals)
  }

  function AllBlocks(ds: seq<Dom>): (m: multiset<nat>)
    decreases ds, 0
  {
    if ds == [] then multiset{} else Blocks(ds[0]) + AllBlocks(ds[1..])
  }

  /** Keys and values come in pairs, or there is no key array at all. */
  predicate Sound(d: Dom)
    decreases d, 0
  {
    (if d.keysBlock == 0 then d.keys == [] else |d.keys| == |d.vals|) && AllSound(d.vals)
  }

  predicate AllSound(ds: seq<Dom>)
    decreases ds, 0
  {
    ds == [] || (Sound(ds[0]) && AllSound(ds[1..]))
  }

  function TextOf(b: Option<Buffer>): (s: seq<byte>) {
    if b.Some? then b.value.text else []
  }

  /** The value a tree represents; keys are read back as C strings. */
  function Erase(d: Dom): (v: Value)
    decreases d, 0
  {
    match d.kind
    case KNull => Null
    case KBool => Bool(d.boolean)
    case KNum => Num(TextOf(d.str))
    case KStr => Str(TextOf(d.str))
    case KArr => Arr(EraseAll(d.vals))
    case KObj => Obj(EraseMembers(d.keys, d.vals))
  }

  function EraseAll(ds: seq<Dom>): (vs: seq<Value>)
    decreases ds, 0
  {
    if ds == [] then [] else [Erase(ds[0])] + EraseAll(ds[1..])
  }

  function EraseMembers(keys: seq<Buffer>, ds: seq<Dom>): (ms: seq<Member>)
    decreases ds, 0
  {
    if ds == [] || keys == [] then []
    else [Member(CString(keys[0].text), Erase(ds[0]))] + EraseMembers(keys[1..], ds[1..])
  }

  // ---- Appending a child -------------------------------------------------

  lemma {:induction false} AllBlocksAppend(ds: seq<Dom>, d: Dom)
    ensures AllBlocks(ds + [d]) == AllBlocks(ds) + Blocks(d)
    decreases |ds|
  {
    if ds == [] {
      assert [d][1..] == [];
      assert AllBlocks([d]) == Blocks(d) + AllBlocks([]);
    } else {
      assert (ds + [d])[0] == ds[0] && (ds + [d])[1..] == ds[1..] + [d];
      AllBlocksAppend(ds[1..], d);
    }
  }

  lemma {:induction false} KeyBlocksAppend(keys: seq<Buffer>, k: Buffer)
    ensures KeyBlocks(keys + [k]) == KeyBlocks(keys) + Owned(k.block)
    decreases |keys|
  {
    if keys == [] {
      assert KeyBlocks([k]) == Owned(k.block) + KeyBlocks([]);
    } else {
      assert (keys + [k])[0] == keys[0] && (keys + [k])[1..] == keys[1..] + [k];
      KeyBlocksAppend(keys[1..], k);
    }
  }

  lemma {:induction false} AllSoundAppend(ds: seq<Dom>, d: Dom)
    requires AllSound(ds) && Sound(d)
    ensures AllSound(ds + [d])
    decreases |ds|
  {
    if ds == [] {
      assert ds + [d] == [d];
    } else {
      assert (ds + [d])[0] == ds[0] && (ds + [d])[1..] == ds[1..] + [d];
      AllSoundAppend(ds[1..], d);
    }
  }

  lemma {:induction false} EraseAllAppend(ds: seq<Dom>, d: Dom)
    ensures EraseAll(ds + [d]) == EraseAll(ds) + [Erase(d)]
    decreases |ds|
  {
    if ds == [] {
      assert ds + [d] == [d];
    } else {
      assert (ds + [d])[0] == ds[0] && (ds + [d])[1..] == ds[1..] + [d];
      EraseAllAppend(ds[1..], d);
    }
  }

  lemma {:induction false} EraseMembersAppend(keys: seq<Buffer>, ds: seq<Dom>, k: Buffer, d: Dom)
    requires |keys| == |ds|
    ensures EraseMembers(keys + [k], ds + [d]) == EraseMembers(keys, ds) + [Member(CString(k.text), Erase(d))]
    decreases |ds|
  {
    if ds == [] {
      assert ds + [d] == [d] && keys + [k] == [k];
    } else {
      assert (ds + [d])[0] == ds[0] && (ds + [d])[1..] == ds[1..] + [d];
      assert (keys + [k])[0] == keys[0] && (keys + [k])[1..] == keys[1..] + [k];
      EraseMembersAppend(keys[1..], ds[1..], k, d);
    }
  }

  // ---- Releasing a tree --------------------------------------------------

  /** json_free: releases exactly the tree's blocks, each once; `rest` is what stays live. */
  method Release(d: Dom, heap: Allocator, ghost rest: multiset<nat>)
    requires heap.Valid() && Sound(d) && heap.live == rest + Blocks(d)
    modifies heap
    ensures heap.Valid() && heap.live == rest && heap.refusals == old(heap.refusals)
    decreases d, 2
  {
    hide Sound, AllSound, KeyBlocks, Owned;
    ghost var arrays := Owned(d.block) + Owned(d.keysBlock) + Owned(d.valsBlock);
    ghost var children := KeyBlocks(d.keys) + AllBlocks(d.vals);
    if d.str.Some? {
      heap.Free(d.str.value.block, rest + arrays + children);
    }
    assert heap.live == rest + arrays + children;
    AllChildren(d);
    ReleaseChildren(d, heap, rest + arrays);
    heap.Free(d.keysBlock, rest + Owned(d.block) + Owned(d.valsBlock));
    heap.Free(d.valsBlock, rest + Owned(d.block));
    heap.Free(d.block, rest);
  }

  /** What the children from the i-th on hold. */
  ghost function ChildBlocks(d: Dom, i: nat): (m: multiset<nat>)
    requires i <= |d.vals| && (d.keysBlock != 0 ==> i <= |d.keys|)
  {
    (if d.keysBlock == 0 then multiset{} else KeyBlocks(d.keys[i..])) + AllBlocks(d.vals[i..])
  }

  /** The i-th child's key, if the tree has keys. */
  function KeyBlock(d: Dom, i: nat): (b: nat)
    requires d.keysBlock != 0 ==> i < |d.keys|
  {
    if d.keysBlock == 0 then 0 else d.keys[i].block
  }

  lemma ChildStep(d: Dom, i: nat, rest: multiset<nat>)
    requires i < |d.vals| && (d.keysBlock != 0 ==> |d.keys| == |d.vals|)
    ensures rest + ChildBlocks(d, i) == rest + ChildBlocks(d, i + 1) + Owned(KeyBlock(d, i)) + Blocks(d.vals[i])
  {
    hide Blocks;
    assert d.vals[i..][0] == d.vals[i] && d.vals[i..][1..] == d.vals[i + 1..];
    if d.keysBlock != 0 {
      assert d.keys[i..][0] == d.keys[i] && d.keys[i..][1..] == d.keys[i + 1..];
    }
  }

  lemma SoundChild(ds: seq<Dom>, i: nat)
    requires i < |ds| && AllSound(ds)
    ensures Sound(ds[i])
    decreases |ds|
  {
    hide Sound;
    if i > 0 {
      assert ds[1..][i - 1] == ds[i];
      SoundChild(ds[1..], i - 1);
    }
  }

  lemma AllChildren(d: Dom)
    requires Sound(d)
    ensures ChildBlocks(d, 0) == KeyBlocks(d.keys) + AllBlocks(d.vals)
  {
    assert d.vals[0..] == d.vals && d.keys[0..] == d.keys;
  }

  /** The loop of json_free over the children. */
  method ReleaseChildren(d: Dom, heap: Allocator, ghost rest: multiset<nat>)
    requires heap.Valid() && Sound(d) && heap.live == rest + ChildBlocks(d, 0)
    modifies heap
    ensures heap.Valid() && heap.live == rest && heap.refusals == old(heap.refusals)
    decreases d, 1
  {
    assert AllSound(d.vals) && (d.keysBlock != 0 ==> |d.keys| == |d.vals|);
    hide *;
    for i := 0 to |d.vals|
      invariant heap.Valid() && heap.refusals == old(heap.refusals)
      invariant heap.live == rest + ChildBlocks(d, i)
    {
      ChildStep(d, i, rest);
      SoundChild(d.vals, i);
      ReleaseChild(d, i, heap, rest + ChildBlocks(d, i + 1));
    }
    NoChildren(d);
  }

  method ReleaseChild(d: Dom, i: nat, heap: Allocator, ghost rest: multiset<nat>)
    requires i < |d.vals| && (d.keysBlock != 0 ==> i < |d.keys|) && Sound(d.vals[i])
    requires heap.Valid() && heap.live == rest + Owned(KeyBlock(d, i)) + Blocks(d.vals[i])
    modifies heap
    ensures heap.Valid() && heap.live == rest && heap.refusals == old(heap.refusals)
    decreases d, 0
  {
    hide Blocks, Sound, Allocator.Valid;
    if d.keysBlock != 0 {
      heap.Free(d.keys[i].block, rest + Blocks(d.vals[i]));
    }
    Release(d.vals[i], heap, rest);
  }

  lemma NoChildren(d: Dom)
    requires d.keysBlock != 0 ==> |d.keys| == |d.vals|
    ensures ChildBlocks(d, |d.vals|) == multiset{}
  {
  }

  /** node() */
  method NewNode(kind: Kind, heap: Allocator) returns (d: Option<Dom>)
    requires heap.Valid()
    modifies heap
    ensures heap.Valid()
    ensures d.Some? ==>
      && d.value.block != 0 && d.value == Dom(d.value.block, kind, false, None, 0, [], 0, [])
      && heap.live == old(heap.live) + Blocks(d.value) && heap.refusals == old(heap.refusals)
    ensures d.None? ==> heap.live == old(heap.live) && heap.refusals > old(heap.refusals)
  {
    var b := heap.Malloc();
    d := if b == 0 then None else Some(Dom(b, kind, false, None, 0, [], 0, []));
  }

  lemma AppendValue(d: Dom, child: Dom)
    ensures Blocks(d.(vals := d.vals + [child])) == Blocks(d) + Blocks(child)
  {
    AllBlocksAppend(d.vals, child);
    assert Blocks(d) == Owned(d.block) + Owned(d.keysBlock) + Owned(d.valsBlock) + TextBlock(d.str)
                        + KeyBlocks(d.keys) + AllBlocks(d.vals);
    hide Blocks, Owned, KeyBlocks, AllBlocks;
    var e := d.(vals := d.vals + [child]);
    assert Blocks(e) == Owned(e.block) + Owned(e.keysBlock) + Owned(e.valsBlock) + TextBlock(e.str)
                        + KeyBlocks(e.keys) + AllBlocks(e.vals) by {
      BlocksAre(e);
    }
  }

  lemma AppendKey(d: Dom, k: Buffer)
    ensures Blocks(d.(keys := d.keys + [k])) == Blocks(d) + Owned(k.block)
  {
    KeyBlocksAppend(d.keys, k);
    BlocksAre(d);
    BlocksAre(d.(keys := d.keys + [k]));
    hide Blocks, Owned, KeyBlocks, AllBlocks;
  }

  lemma BlocksAre(d: Dom)
    ensures Blocks(d) ==
      Owned(d.block) + Owned(d.keysBlock) + Owned(d.valsBlock) + TextBlock(d.str)
      + KeyBlocks(d.keys) + AllBlocks(d.vals)
  {
  }

  /** The value array takes a new block. */
  method GrowVals(d: Dom, heap: Allocator, ghost rest: multiset<nat>) returns (b: nat)
    requires heap.Valid() && heap.live == rest + Blocks(d)
    modifies heap
    ensures heap.Valid() && heap.live == rest + Blocks(if b == 0 then d else d.(valsBlock := b))
    ensures heap.refusals == old(heap.refusals) + if b == 0 then 1 else 0
  {
    hide Owned, KeyBlocks, AllBlocks;
    b := heap.Realloc(d.valsBlock, rest + Owned(d.block) + Owned(d.keysBlock) + TextBlock(d.str)
                                   + KeyBlocks(d.keys) + AllBlocks(d.vals));
  }

  /** The key array takes a new block. */
  method GrowKeys(d: Dom, heap: Allocator, ghost rest: multiset<nat>) returns (b: nat)
    requires heap.Valid() && heap.live == rest + Blocks(d)
    modifies heap
    ensures heap.Valid() && heap.live == rest + Blocks(if b == 0 then d else d.(keysBlock := b))
    ensures heap.refusals == old(heap.refusals) + if b == 0 then 1 else 0
  {
    hide Owned, KeyBlocks, AllBlocks;
    b := heap.Realloc(d.keysBlock, rest + Owned(d.block) + Owned(d.valsBlock) + TextBlock(d.str)
                                   + KeyBlocks(d.keys) + AllBlocks(d.vals));
  }

  /** The key's half of push_child. */
  method PushKey(d: Dom, key: Buffer, heap: Allocator, ghost rest: multiset<nat>) returns (ok: bool, d': Dom)
    requires heap.Valid() && heap.live == rest + Owned(key.block) + Blocks(d)
    modifies heap
    ensures heap.Valid()
    ensures ok ==>
      && d' == d.(keysBlock := d'.keysBlock, keys := d.keys + [key]) && d'.keysBlock != 0
      && heap.live == rest + Blocks(d') && heap.refusals == old(heap.refusals)
    ensures !ok ==> d' == d && heap.live == rest + Owned(key.block) + Blocks(d) && heap.refusals > old(heap.refusals)
  {
    hide Owned, Blocks, Allocator.Valid;
    var nk := GrowKeys(d, heap, rest + Owned(key.block));
    if nk == 0 {
      return false, d;
    }
    d' := d.(keysBlock := nk);
    AppendKey(d', key);
    d' := d'.(keys := d.keys + [key]);
    ok := true;
  }

  /** Appending a pair of a key and a value, or a value alone, keeps a tree sound. */
  lemma SoundAppend(parent: Dom, key: Option<Buffer>, child: Dom, d: Dom)
    requires Sound(parent) && Sound(child)
    requires if key.Some? then |parent.keys| == |parent.vals| && d.keysBlock != 0
             else parent.keysBlock == 0 && d.keysBlock == 0
    requires d.vals == parent.vals + [child] && d.keys == if key.Some? then parent.keys + [key.value] else parent.keys
    ensures Sound(d)
  {
    AllSoundAppend(parent.vals, child);
  }

  /** push_child: on success the parent owns the key and the child; on failure the caller still does. */
  method PushChild(parent: Dom, key: Option<Buffer>, child: Dom, heap: Allocator, ghost rest: multiset<nat>)
    returns (ok: bool, d: Dom)
    requires heap.Valid() && Sound(parent) && Sound(child)
    requires heap.live == rest + Blocks(child) + TextBlock(key) + Blocks(parent)
    requires if key.Some? then |parent.keys| == |parent.vals| else parent.keysBlock == 0
    modifies heap
    ensures heap.Valid() && Sound(d)
    ensures ok ==>
      && d == parent.(vals := parent.vals + [child], valsBlock := d.valsBlock, keysBlock := d.keysBlock,
                      keys := if key.Some? then parent.keys + [key.value] else parent.keys)
      && (if key.Some? then |d.keys| == |d.vals| else d.keysBlock == 0)
      && heap.live == rest + Blocks(d) && heap.refusals == old(heap.refusals)
    ensures !ok ==> heap.live == rest + Blocks(child) + TextBlock(key) + Blocks(d) && heap.refusals > old(heap.refusals)
  {
    hide Owned, Blocks, Sound, Allocator.Valid;
    d := parent;
    var nv := GrowVals(d, heap, rest + Blocks(child) + TextBlock(key));
    if nv == 0 {
      return false, d;
    }
    d := d.(valsBlock := nv);
    SoundIgnoresVals(parent, nv);
    if key.Some? {
      ok, d := PushKey(d, key.value, heap, rest + Blocks(child));
      if !ok {
        return false, d;
      }
    }
    AppendValue(d, child);
    d := d.(vals := parent.vals + [child]);
    SoundAppend(parent, key, child, d);
    ok := true;
  }

  lemma SoundIgnoresVals(d: Dom, b: nat)
    requires Sound(d)
    ensures Sound(d.(valsBlock := b))
  {
  }

  // ---- The cursor and the tokens -----------------------------------------

  class Cursor {
    const text: seq<byte>
    var p: nat
    var depth: nat

    ghost predicate Valid()
      reads this
    {
      p <= |text|
    }

    constructor (text: seq<byte>)
      ensures Valid() && this.text == text && p == 0 && depth == 0
    {
      this.text := text;
      p, depth := 0, 0;
    }

    /** skip_ws */
    method SkipWs()
      requires Valid()
      modifies this`p
      ensures Valid() && p == SkipBlanks(text, old(p))
    {
      while p < |text| && Blank(text[p])
        invariant p <= |text| && SkipBlanks(text, p) == SkipBlanks(text, old(p))
      {
        p := p + 1;
      }
    }

    /** A run of decimal digits. */
    method SkipDigitRun()
      requires Valid()
      modifies this`p
      ensures Valid() && p == SkipDigits(text, old(p))
    {
      while p < |text| && Digit(text[p])
        invariant p <= |text| && SkipDigits(text, p) == SkipDigits(text, old(p))
      {
        p := p + 1;
      }
    }

    /** The four hexadecimal digits of a \u escape. */
    method ReadHex() returns (ok: bool, v: nat)
      requires Valid()
      modifies this`p
      ensures Valid() && HexRun(ok, v, p) == Hex(text, old(p), 4, 0)
    {
      v := 0;
      for i := 0 to 4
        invariant p <= |text| && Hex(text, p, 4 - i, v) == Hex(text, old(p), 4, 0)
      {
        if p >= |text| {
          return false, v;
        }
        var d := HexDigit(text[p]);
        p := p + 1;
        if d < 0 {
          return false, v;
        }
        v := v * 16 + d;
      }
      ok := true;
    }

    /** The sizing pass of parse_string_raw. */
    method Scan() returns (scan: nat)
      requires Valid()
      ensures scan == ScanQuote(text, p)
    {
      scan := p;
      while scan < |text| && text[scan] != QUOTE
        invariant scan <= |text| + 1 && ScanQuote(text, scan) == ScanQuote(text, p)
      {
        if text[scan] == BACKSLASH {
          scan := scan + 1;
        }
        scan := scan + 1;
      }
    }

    /** After "\u": the code point, with its low half when it is a high surrogate. */
    method ReadUnicode() returns (ok: bool, cp: nat)
      requires Valid()
      modifies this`p
      ensures Valid() && (ok ==> cp < 0x20_0000)
      ensures Unicode(text, old(p)) == if ok then Done(Utf8(cp), p) else Fail(p)
    {
      hide Hex, Utf8;
      ghost var start := p;
      HexBound(text, p, 4, 0);
      ok, cp := ReadHex();
      if ok && HighSurrogate(cp) && |text| - p >= 2 && text[p] == BACKSLASH && text[p + 1] == LOWER_U {
        p := p + 2;
        HexBound(text, p, 4, 0);
        var lo;
        ok, lo := ReadHex();
        if ok {
          cp := Astral(cp, lo);
        }
      }
    }

    /** The escape after a backslash, decoded into `out` from `o` on. */
    method ReadEscape(out: array<byte>, o: nat) returns (ok: bool, o': nat)
      requires Valid() && o <= out.Length
      requires
        var d := Escape(text, p);
        d.Done? ==> o + |d.text| <= out.Length
      modifies this`p, out
      ensures Valid()
      ensures match Escape(text, old(p))
        case Fail(stop) => !ok && p == stop
        case Done(s, next) => ok && p == next && o' == o + |s| && out[..o'] == old(out[..o]) + s
    {
      hide Unicode, Utf8;
      o' := o;
      if p >= |text| {
        return false, o;
      }
      var e := text[p];
      p := p + 1;
      if e == LOWER_U {
        var cp;
        ok, cp := ReadUnicode();
        if ok {
          o' := PutUtf8(out, o, cp);
        }
      } else if ShortEscape(e) != 0 {
        out[o] := ShortEscape(e);
        o' := o + 1;
        ok := true;
      } else {
        ok := false;
      }
    }

    /** One character of the string, raw or escaped. */
    method DecodeOne(out: array<byte>, o: nat, ghost scan: nat) returns (ok: bool, o': nat)
      requires Valid() && p < |text| && text[p] != QUOTE && scan == ScanQuote(text, p) < |text|
      requires o + (scan - p) < out.Length
      modifies this`p, out
      ensures Valid() && o' <= out.Length
      ensures ok ==>
        && old(p) < p <= scan && ScanQuote(text, p) == scan && o <= o' <= o + (p - old(p))
        && out[..o] == old(out[..o]) && StringTail(text, old(p)) == Prepend(out[o..o'], StringTail(text, p))
      ensures !ok ==> StringTail(text, old(p)) == Fail(p)
    {
      hide Escape;
      if text[p] != BACKSLASH {
        out[o] := text[p];
        o' := o + 1;
        p := p + 1;
        ok := true;
        assert out[o..o'] == [text[old(p)]];
      } else {
        EscapeScan(text, p);
        ghost var d := Escape(text, p + 1);
        p := p + 1;
        ok, o' := ReadEscape(out, o);
        if ok {
          assert out[o..o'] == out[..o'][o..] == d.text && out[..o] == out[..o'][..o];
        } else {
          o' := o;
        }
      }
    }

    /** The decoding pass: fills `out`, whose size the sizing pass chose, up to the quote at `scan`. */
    method Decode(out: array<byte>, ghost scan: nat) returns (ok: bool, o: nat)
      requires Valid() && scan == ScanQuote(text, p) < |text| && out.Length == scan - p + 1
      modifies this`p, out
      ensures Valid()
      ensures match StringTail(text, old(p))
        case Fail(stop) => !ok && p == stop
        case Done(s, next) => ok && p + 1 == next && p == scan && o == |s| < out.Length && out[..o] == s
    {
      ghost var start, whole := p, StringTail(text, p);
      PrependNone(whole);
      hide StringTail, ScanQuote, Prepend;
      o := 0;
      while p < |text| && text[p] != QUOTE
        invariant start <= p <= scan && ScanQuote(text, p) == scan && o <= p - start
        invariant Prepend(out[..o], StringTail(text, p)) == whole
        decreases |text| - p
      {
        ghost var q, was, before := p, o, out[..o];
        var good;
        good, o := DecodeOne(out, o, scan);
        if !good {
          PrependFail(before, p);
          return false, o;
        }
        assert before + out[was..o] == out[..o];
        PrependTwo(before, out[was..o], StringTail(text, p));
      }
      ok := true;
      AtQuote(text, p);
      PrependLast(out[..o], p + 1);
    }
  }

  lemma PrependTwo(a: seq<byte>, b: seq<byte>, d: Decode)
    ensures Prepend(a, Prepend(b, d)) == Prepend(a + b, d)
  {
    if d.Done? {
      assert a + (b + d.text) == a + b + d.text;
    }
  }

  lemma PrependNone(d: Decode)
    ensures Prepend([], d) == d
  {
    if d.Done? {
      assert [] + d.text == d.text;
    }
  }

  lemma PrependFail(a: seq<byte>, stop: nat)
    ensures Prepend(a, Fail(stop)) == Fail(stop)
  {
  }

  lemma PrependLast(a: seq<byte>, next: nat)
    ensures Prepend(a, Done([], next)) == Done(a, next)
  {
    assert a + [] == a;
  }

  lemma AtQuote(t: seq<byte>, p: nat)
    requires p <= |t|
    ensures p < |t| && t[p] == QUOTE ==> StringTail(t, p) == Done([], p + 1) && ScanQuote(t, p) == p
  {
  }

  method PutUtf8(out: array<byte>, o: nat, cp: nat) returns (o': nat)
    requires cp < 0x20_0000 && o + |Utf8(cp)| <= out.Length
    modifies out
    ensures o' == o + |Utf8(cp)| && out[..o'] == old(out[..o]) + Utf8(cp)
  {
    o' := o;
    if cp < 0x80 {
      out[o'] := cp;
      o' := o' + 1;
    } else if cp < 0x800 {
      out[o'], out[o' + 1] := 0xC0 + cp / 0x40, 0x80 + cp % 0x40;
      o' := o' + 2;
    } else if cp < 0x1_0000 {
      out[o'], out[o' + 1], out[o' + 2] := 0xE0 + cp / 0x1000, 0x80 + cp / 0x40 % 0x40, 0x80 + cp % 0x40;
      o' := o' + 3;
    } else {
      out[o'], out[o' + 1] := 0xF0 + cp / 0x4_0000, 0x80 + cp / 0x1000 % 0x40;
      out[o' + 2], out[o' + 3] := 0x80 + cp / 0x40 % 0x40, 0x80 + cp % 0x40;
      o' := o' + 4;
    }
  }

  // ---- Values ------------------------------------------------------------

  /**
   * What one parsing call does. On success it returns the tree of what the specification reads,
   * holding every block the call left live. On failure it leaves nothing live, and either the text
   * was not accepted or a request for memory was refused.
   */
  ghost predicate Outcome(r: Option<Dom>, spec: Option<(Value, nat)>, p: nat,
                          live: multiset<nat>, live': multiset<nat>, refusals: nat, refusals': nat)
  {
    match r
    case Some(d) => spec == Some((Erase(d), p)) && Sound(d) && live' == live + Blocks(d) && refusals' == refusals
    case None => live' == live && (refusals' > refusals || (refusals' == refusals && spec.None?))
  }

  /** A node without children or text holds its own block alone. */
  lemma JustABlock(d: Dom)
    requires d.str.None? && d.keysBlock == 0 && d.keys == [] && d.valsBlock == 0 && d.vals == []
    ensures Blocks(d) == Owned(d.block) && Sound(d)
  {
  }

  /** A leaf takes over a text buffer. */
  lemma TakeText(d: Dom, b: Buffer)
    requires d.str.None?
    ensures Blocks(d.(str := Some(b))) == Blocks(d) + Owned(b.block)
    ensures Sound(d) ==> Sound(d.(str := Some(b)))
  {
    BlocksAre(d);
    BlocksAre(d.(str := Some(b)));
    hide Owned, KeyBlocks, AllBlocks, Blocks, AllSound;
  }

  /** parse_string_raw */
  method ParseStringRaw(x: Cursor, heap: Allocator) returns (r: Option<Buffer>)
    requires x.Valid() && heap.Valid()
    modifies x`p, heap
    ensures x.Valid() && heap.Valid()
    ensures r.Some? ==>
      && ParseString(x.text, old(x.p)) == Some((r.value.text, x.p))
      && heap.live == old(heap.live) + Owned(r.value.block) && heap.refusals == old(heap.refusals)
    ensures r.None? ==>
      && heap.live == old(heap.live)
      && (heap.refusals > old(heap.refusals)
          || (heap.refusals == old(heap.refusals) && ParseString(x.text, old(x.p)).None?))
  {
    hide StringTail, ScanQuote;
    if x.p >= |x.text| || x.text[x.p] != QUOTE {
      return None;
    }
    x.p := x.p + 1;
    var scan := x.Scan();
    SameQuote(x.text, x.p);
    if scan >= |x.text| {
      return None;
    }
    var b := heap.Malloc();
    if b == 0 {
      return None;
    }
    var out := new byte[scan - x.p + 1];
    var ok, o := x.Decode(out, scan);
    if !ok {
      heap.Free(b, old(heap.live));
      return None;
    }
    x.p := x.p + 1;
    out[o] := 0;
    r := Some(Buffer(b, out[..o]));
  }

  /** A string node that has taken its text over. */
  lemma StringNode(d: Dom, b: Buffer, live: multiset<nat>)
    requires d == Dom(d.block, KStr, false, None, 0, [], 0, [])
    ensures
      var e := d.(str := Some(b));
      Erase(e) == Str(b.text) && Sound(e) && live + Owned(b.block) + Blocks(d) == live + Blocks(e)
  {
    hide Blocks, Owned;
    TakeText(d, b);
    JustABlock(d);
  }

  /** parse_string */
  method ParseStringValue(x: Cursor, heap: Allocator) returns (r: Option<Dom>)
    requires x.Valid() && heap.Valid()
    modifies x`p, heap
    ensures x.Valid() && heap.Valid()
    ensures
      var spec := match ParseString(x.text, old(x.p)) case None => None case Some((s, next)) => Some((Str(s), next));
      Outcome(r, spec, x.p, old(heap.live), heap.live, old(heap.refusals), heap.refusals)
  {
    hide ParseString, Blocks, Owned, Sound, Erase;
    var s := ParseStringRaw(x, heap);
    if s.None? {
      return None;
    }
    r := NewNode(KStr, heap);
    if r.None? {
      heap.Free(s.value.block, old(heap.live));
      return None;
    }
    StringNode(r.value, s.value, old(heap.live));
    r := Some(r.value.(str := s));
  }

  /** parse_number */
  method ParseNumberValue(x: Cursor, heap: Allocator) returns (r: Option<Dom>)
    requires x.Valid() && heap.Valid()
    modifies x`p, heap
    ensures x.Valid() && heap.Valid()
    ensures Outcome(r, ParseNumber(x.text, old(x.p)), x.p, old(heap.live), heap.live, old(heap.refusals), heap.refusals)
  {
    hide NumberEnd, Blocks, Sound;
    var s := x.p;
    ScanNumber(x);
    var n := x.p - s;
    if n == 0 || (n == 1 && x.text[s] == MINUS) {
      return None;
    }
    r := NewNode(KNum, heap);
    if r.None? {
      return None;
    }
    JustABlock(r.value);
    var b := heap.Malloc();
    if b == 0 {
      heap.Free(r.value.block, old(heap.live));
      return None;
    }
    TakeText(r.value, Buffer(b, x.text[s..x.p]));
    r := Some(r.value.(str := Some(Buffer(b, x.text[s..x.p]))));
  }

  /** The scanning part of parse_number. */
  method ScanNumber(x: Cursor)
    requires x.Valid()
    modifies x`p
    ensures x.Valid() && x.p == NumberEnd(x.text, old(x.p))
  {
    hide SkipDigits;
    if x.p < |x.text| && x.text[x.p] == MINUS {
      x.p := x.p + 1;
    }
    x.SkipDigitRun();
    if x.p < |x.text| && x.text[x.p] == DOT {
      x.p := x.p + 1;
      x.SkipDigitRun();
    }
    if x.p < |x.text| && (x.text[x.p] == 0x65 || x.text[x.p] == 0x45) {
      x.p := x.p + 1;
      if x.p < |x.text| && (x.text[x.p] == PLUS || x.text[x.p] == MINUS) {
        x.p := x.p + 1;
      }
      x.SkipDigitRun();
    }
  }

  /** parse_lit */
  method ParseLiteralValue(x: Cursor, heap: Allocator, lit: seq<byte>, kind: Kind, boolean: bool)
    returns (r: Option<Dom>)
    requires x.Valid() && heap.Valid() && |lit| > 0 && (kind == KBool || kind == KNull)
    modifies x`p, heap
    ensures x.Valid() && heap.Valid()
    ensures Outcome(r, ParseLiteral(x.text, old(x.p), lit, if kind == KBool then Bool(boolean) else Null), x.p,
                    old(heap.live), heap.live, old(heap.refusals), heap.refusals)
  {
    if |x.text| - x.p < |lit| || x.text[x.p..x.p + |lit|] != lit {
      return None;
    }
    x.p := x.p + |lit|;
    hide Sound, Blocks;
    r := NewNode(kind, heap);
    if r.Some? {
      JustABlock(r.value);
      r := Some(r.value.(boolean := boolean));
      JustABlock(r.value);
    }
  }

  /** Values read so far, in front of what the rest of the list gives. */
  function FrontItems(vs: seq<Value>, r: Option<(seq<Value>, nat)>): (o: Option<(seq<Value>, nat)>) {
    if r.None? then None else Some((vs + r.value.0, r.value.1))
  }

  function FrontMembers(ms: seq<Member>, r: Option<(seq<Member>, nat)>): (o: Option<(seq<Member>, nat)>) {
    if r.None? then None else Some((ms + r.value.0, r.value.1))
  }

  /** parse_array, from its bracket */
  method ParseArrayValue(x: Cursor, heap: Allocator) returns (r: Option<Dom>)
    requires x.Valid() && heap.Valid() && x.p < |x.text|
    modifies x, heap
    ensures x.Valid() && heap.Valid() && (r.Some? ==> x.depth == old(x.depth))
    ensures Outcome(r, ParseArray(x.text, old(x.p) + 1, old(x.depth) + 1), x.p,
                    old(heap.live), heap.live, old(heap.refusals), heap.refusals)
    decreases |x.text| - x.p, 0
  {
    hide ParseElements, SkipBlanks, Blocks, Sound;
    x.p := x.p + 1;
    x.depth := x.depth + 1;
    if x.depth > MAX_DEPTH {
      return None;
    }
    r := NewNode(KArr, heap);
    if r.None? {
      return None;
    }
    JustABlock(r.value);
    x.SkipWs();
    if x.p < |x.text| && x.text[x.p] == RBRACKET {
      x.p := x.p + 1;
      x.depth := x.depth - 1;
      assert EraseAll(r.value.vals) == [];
      return r;
    }
    r := ParseItems(x, heap, r.value, old(heap.live));
    if r.Some? {
      x.depth := x.depth - 1;
    }
  }

  /** The loop of parse_array, starting from the empty array `node`. */
  method ParseItems(x: Cursor, heap: Allocator, node: Dom, ghost rest: multiset<nat>) returns (r: Option<Dom>)
    requires x.Valid() && heap.Valid() && Sound(node) && heap.live == rest + Blocks(node)
    requires node.kind == KArr && node.vals == [] && node.keysBlock == 0
    modifies x, heap
    ensures x.Valid() && heap.Valid() && (r.Some? ==> x.depth == old(x.depth))
    ensures
      var spec := ParseElements(x.text, old(x.p), old(x.depth));
      Outcome(r, if spec.None? then None else Some((Arr(spec.value.0), spec.value.1)), x.p,
              rest, heap.live, old(heap.refusals), heap.refusals)
    decreases |x.text| - x.p, 3
  {
    hide ParseElements, ParseValue, SkipBlanks, Blocks, Sound, Allocator.Valid;
    ghost var whole := ParseElements(x.text, x.p, x.depth);
    var arr := node;
    FrontNone(whole);
    while true
      invariant x.Valid() && heap.Valid() && x.depth == old(x.depth) && x.p >= old(x.p)
      invariant arr.kind == KArr && arr.keysBlock == 0 && Sound(arr)
      invariant heap.live == rest + Blocks(arr) && heap.refusals == old(heap.refusals)
      invariant FrontItems(EraseAll(arr.vals), ParseElements(x.text, x.p, x.depth)) == whole
      decreases |x.text| - x.p
    {
      ghost var p := x.p;
      T.ElementsStep(x.text, x.p, x.depth);
      var ok, grown, item := ParseItem(x, heap, arr, rest);
      if !ok {
        return None;
      }
      EraseAllAppend(arr.vals, item);
      FrontItem(EraseAll(arr.vals), Erase(item), x.text, p, x.depth);
      arr := grown;
      x.SkipWs();
      if x.p >= |x.text| {
        Release(arr, heap, rest);
        return None;
      }
      if x.text[x.p] == COMMA {
        x.p := x.p + 1;
      } else if x.text[x.p] == RBRACKET {
        x.p := x.p + 1;
        return Some(arr);
      } else {
        Release(arr, heap, rest);
        return None;
      }
    }
  }

  /** One element of parse_array's loop: reads it and appends it to `arr`, or releases everything. */
  method ParseItem(x: Cursor, heap: Allocator, arr: Dom, ghost rest: multiset<nat>)
    returns (ok: bool, grown: Dom, item: Dom)
    requires x.Valid() && heap.Valid() && Sound(arr) && arr.keysBlock == 0 && heap.live == rest + Blocks(arr)
    modifies x, heap
    ensures x.Valid() && heap.Valid()
    ensures ok ==>
      && x.depth == old(x.depth) && x.p > old(x.p) && Sound(grown) && grown.kind == arr.kind
      && grown.keysBlock == 0 && grown.vals == arr.vals + [item]
      && heap.live == rest + Blocks(grown) && heap.refusals == old(heap.refusals)
      && ParseValue(x.text, old(x.p), x.depth) == Some((Erase(item), x.p))
    ensures !ok ==>
      && heap.live == rest
      && (heap.refusals > old(heap.refusals) ||
          (heap.refusals == old(heap.refusals) && ParseValue(x.text, old(x.p), old(x.depth)).None?))
    decreases |x.text| - x.p, 2
  {
    hide ParseValue, Blocks, Sound, Allocator.Valid;
    var v := ParseDom(x, heap);
    if v.None? {
      Release(arr, heap, rest);
      return false, arr, arr;
    }
    item := v.value;
    ok, grown := PushChild(arr, None, item, heap, rest);
    if !ok {
      Release(item, heap, rest + Blocks(grown));
      Release(grown, heap, rest);
    }
  }

  lemma FrontNone(r: Option<(seq<Value>, nat)>)
    ensures FrontItems([], r) == r
  {
    assert r.Some? ==> [] + r.value.0 == r.value.0;
  }

  /** Reading one more element moves it from the rest of the list to the front. */
  lemma FrontItem(vs: seq<Value>, v: Value, t: seq<byte>, p: nat, depth: nat)
    requires p <= |t| && ParseValue(t, p, depth).Some? && ParseValue(t, p, depth).value.0 == v
    ensures
      var c := SkipBlanks(t, ParseValue(t, p, depth).value.1);
      var whole := FrontItems(vs, ParseElements(t, p, depth));
      && (c < |t| && t[c] == COMMA ==> whole == FrontItems(vs + [v], ParseElements(t, c + 1, depth)))
      && (c < |t| && t[c] == RBRACKET ==> whole == Some((vs + [v], c + 1)))
      && ((c < |t| ==> t[c] != COMMA && t[c] != RBRACKET) ==> whole == None)
  {
    hide ParseValue, SkipBlanks;
    var c := SkipBlanks(t, ParseValue(t, p, depth).value.1);
    if c < |t| && t[c] == COMMA && ParseElements(t, c + 1, depth).Some? {
      var ws := ParseElements(t, c + 1, depth).value.0;
      assert vs + ([v] + ws) == vs + [v] + ws;
    }
  }

  /** parse_object, from its brace */
  method ParseObjectValue(x: Cursor, heap: Allocator) returns (r: Option<Dom>)
    requires x.Valid() && heap.Valid() && x.p < |x.text|
    modifies x, heap
    ensures x.Valid() && heap.Valid() && (r.Some? ==> x.depth == old(x.depth))
    ensures Outcome(r, ParseObject(x.text, old(x.p) + 1, old(x.depth) + 1), x.p,
                    old(heap.live), heap.live, old(heap.refusals), heap.refusals)
    decreases |x.text| - x.p, 0
  {
    hide ParseMembers, SkipBlanks, Blocks, Sound;
    x.p := x.p + 1;
    x.depth := x.depth + 1;
    if x.depth > MAX_DEPTH {
      return None;
    }
    r := NewNode(KObj, heap);
    if r.None? {
      return None;
    }
    JustABlock(r.value);
    x.SkipWs();
    if x.p < |x.text| && x.text[x.p] == RBRACE {
      x.p := x.p + 1;
      x.depth := x.depth - 1;
      assert EraseMembers(r.value.keys, r.value.vals) == [];
      return r;
    }
    r := ParsePairs(x, heap, r.value, old(heap.live));
    if r.Some? {
      x.depth := x.depth - 1;
    }
  }

  /** A key and its colon, the first half of parse_object's loop body. */
  method ParseKeyBuffer(x: Cursor, heap: Allocator) returns (r: Option<Buffer>)
    requires x.Valid() && heap.Valid()
    modifies x`p, heap
    ensures x.Valid() && heap.Valid()
    ensures r.Some? ==>
      && ParseKey(x.text, old(x.p)) == Some((CString(r.value.text), x.p))
      && heap.live == old(heap.live) + Owned(r.value.block) && heap.refusals == old(heap.refusals)
    ensures r.None? ==>
      && heap.live == old(heap.live)
      && (heap.refusals > old(heap.refusals)
          || (heap.refusals == old(heap.refusals) && ParseKey(x.text, old(x.p)).None?))
  {
    hide SkipBlanks, ParseString, Owned;
    x.SkipWs();
    r := ParseStringRaw(x, heap);
    if r.None? {
      return None;
    }
    x.SkipWs();
    if x.p >= |x.text| || x.text[x.p] != COLON {
      heap.Free(r.value.block, old(heap.live));
      return None;
    }
    x.p := x.p + 1;
  }

  /** The loop of parse_object, starting from the empty object `node`. */
  method ParsePairs(x: Cursor, heap: Allocator, node: Dom, ghost rest: multiset<nat>) returns (r: Option<Dom>)
    requires x.Valid() && heap.Valid() && Sound(node) && heap.live == rest + Blocks(node)
    requires node.kind == KObj && node.vals == [] && node.keys == []
    modifies x, heap
    ensures x.Valid() && heap.Valid() && (r.Some? ==> x.depth == old(x.depth))
    ensures
      var spec := ParseMembers(x.text, old(x.p), old(x.depth));
      Outcome(r, if spec.None? then None else Some((Obj(spec.value.0), spec.value.1)), x.p,
              rest, heap.live, old(heap.refusals), heap.refusals)
    decreases |x.text| - x.p, 2
  {
    hide ParseMembers, ParseKey, ParseValue, SkipBlanks, Blocks, Sound, Allocator.Valid, Owned;
    ghost var whole := ParseMembers(x.text, x.p, x.depth);
    var obj := node;
    FrontNoMembers(whole);
    while true
      invariant x.Valid() && heap.Valid() && x.depth == old(x.depth) && x.p >= old(x.p)
      invariant obj.kind == KObj && |obj.keys| == |obj.vals| && Sound(obj)
      invariant heap.live == rest + Blocks(obj) && heap.refusals == old(heap.refusals)
      invariant FrontMembers(EraseMembers(obj.keys, obj.vals), ParseMembers(x.text, x.p, x.depth)) == whole
      decreases |x.text| - x.p
    {
      ghost var p := x.p;
      NoMember(x.text, p, x.depth);
      var ok, grown, key, val := ParsePair(x, heap, obj, rest);
      if !ok {
        return None;
      }
      EraseMembersAppend(obj.keys, obj.vals, key, val);
      FrontMember(EraseMembers(obj.keys, obj.vals), CString(key.text), Erase(val), x.text, p, x.depth);
      obj := grown;
      x.SkipWs();
      if x.p >= |x.text| {
        Release(obj, heap, rest);
        return None;
      }
      if x.text[x.p] == COMMA {
        x.p := x.p + 1;
      } else if x.text[x.p] == RBRACE {
        x.p := x.p + 1;
        return Some(obj);
      } else {
        Release(obj, heap, rest);
        return None;
      }
    }
  }

  /** One pair of parse_object's loop: reads it and appends it to `obj`, or releases everything. */
  method ParsePair(x: Cursor, heap: Allocator, obj: Dom, ghost rest: multiset<nat>)
    returns (ok: bool, grown: Dom, key: Buffer, val: Dom)
    requires x.Valid() && heap.Valid() && Sound(obj) && |obj.keys| == |obj.vals| && heap.live == rest + Blocks(obj)
    modifies x, heap
    ensures x.Valid() && heap.Valid()
    ensures ok ==>
      && x.depth == old(x.depth) && x.p > old(x.p) && Sound(grown) && grown.kind == obj.kind
      && grown.keys == obj.keys + [key] && grown.vals == obj.vals + [val]
      && heap.live == rest + Blocks(grown) && heap.refusals == old(heap.refusals)
      && ParseKey(x.text, old(x.p)).Some? && ParseKey(x.text, old(x.p)).value.0 == CString(key.text)
      && ParseValue(x.text, ParseKey(x.text, old(x.p)).value.1, x.depth) == Some((Erase(val), x.p))
    ensures !ok ==>
      && heap.live == rest
      && (heap.refusals > old(heap.refusals) ||
          (heap.refusals == old(heap.refusals) && NoPair(x.text, old(x.p), old(x.depth))))
    decreases |x.text| - x.p, 1
  {
    hide ParseKey, ParseValue, Blocks, Sound, Allocator.Valid, Owned;
    var none := Dom(0, KNull, false, None, 0, [], 0, []);
    var k := ParseKeyBuffer(x, heap);
    if k.None? {
      Release(obj, heap, rest);
      return false, obj, Buffer(0, []), none;
    }
    key := k.value;
    var v := ParseDom(x, heap);
    if v.None? {
      heap.Free(key.block, rest + Blocks(obj));
      Release(obj, heap, rest);
      return false, obj, key, none;
    }
    val := v.value;
    ok, grown := PushChild(obj, k, val, heap, rest);
    if !ok {
      heap.Free(key.block, rest + Blocks(val) + Blocks(grown));
      Release(val, heap, rest + Blocks(grown));
      Release(grown, heap, rest);
    }
  }

  /** No key, or no value after it. */
  ghost predicate NoPair(t: seq<byte>, p: nat, depth: nat)
    requires p <= |t|
  {
    ParseKey(t, p).None? || ParseValue(t, ParseKey(t, p).value.1, depth).None?
  }

  lemma NoMember(t: seq<byte>, p: nat, depth: nat)
    requires p <= |t|
    ensures NoPair(t, p, depth) ==> ParseMembers(t, p, depth).None?
  {
    hide ParseKey, ParseValue;
  }

  lemma FrontNoMembers(r: Option<(seq<Member>, nat)>)
    ensures FrontMembers([], r) == r
  {
    assert r.Some? ==> [] + r.value.0 == r.value.0;
  }

  /** Reading one more member moves it from the rest of the list to the front. */
  lemma FrontMember(ms: seq<Member>, key: seq<byte>, v: Value, t: seq<byte>, p: nat, depth: nat)
    requires p <= |t| && ParseKey(t, p).Some? && ParseKey(t, p).value.0 == key
    requires ParseValue(t, ParseKey(t, p).value.1, depth).Some?
    requires ParseValue(t, ParseKey(t, p).value.1, depth).value.0 == v
    ensures
      var m := Member(key, v);
      var c := SkipBlanks(t, ParseValue(t, ParseKey(t, p).value.1, depth).value.1);
      var whole := FrontMembers(ms, ParseMembers(t, p, depth));
      && (c < |t| && t[c] == COMMA ==> whole == FrontMembers(ms + [m], ParseMembers(t, c + 1, depth)))
      && (c < |t| && t[c] == RBRACE ==> whole == Some((ms + [m], c + 1)))
      && ((c < |t| ==> t[c] != COMMA && t[c] != RBRACE) ==> whole == None)
  {
    hide ParseKey, ParseValue, SkipBlanks;
    var c := SkipBlanks(t, ParseValue(t, ParseKey(t, p).value.1, depth).value.1);
    if c < |t| && t[c] == COMMA && ParseMembers(t, c + 1, depth).Some? {
      var ws := ParseMembers(t, c + 1, depth).value.0;
      assert ms + ([Member(key, v)] + ws) == ms + [Member(key, v)] + ws;
    }
  }

  /** parse_value */
  method ParseDom(x: Cursor, heap: Allocator) returns (r: Option<Dom>)
    requires x.Valid() && heap.Valid()
    modifies x, heap
    ensures x.Valid() && heap.Valid() && (r.Some? ==> x.depth == old(x.depth) && x.p > old(x.p))
    ensures Outcome(r, ParseValue(x.text, old(x.p), old(x.depth)), x.p,
                    old(heap.live), heap.live, old(heap.refusals), heap.refusals)
    decreases |x.text| - x.p, 1
  {
    hide SkipBlanks, ParseObject, ParseArray, ParseString, ParseNumber, ParseLiteral, Blocks, Sound, Allocator.Valid;
    x.SkipWs();
    if x.p >= |x.text| {
      return None;
    }
    var c := x.text[x.p];
    if c == LBRACE {
      r := ParseObjectValue(x, heap);
    } else if c == LBRACKET {
      r := ParseArrayValue(x, heap);
    } else if c == QUOTE {
      r := ParseStringValue(x, heap);
    } else if c == 0x74 {
      r := ParseLiteralValue(x, heap, TRUE_TEXT, KBool, true);
    } else if c == 0x66 {
      r := ParseLiteralValue(x, heap, FALSE_TEXT, KBool, false);
    } else if c == 0x6E {
      r := ParseLiteralValue(x, heap, NULL_TEXT, KNull, false);
    } else if c == MINUS || Digit(c) {
      r := ParseNumberValue(x, heap);
    } else {
      r := None;
    }
  }

  // ---- Whole texts -------------------------------------------------------

  /**
   * json_parse. It succeeds exactly when the text is accepted and no request for memory was
   * refused; then the tree's blocks are all it leaves live. Otherwise it leaves nothing live.
   */
  method ParseJson(text: seq<byte>, heap: Allocator) returns (r: Option<Dom>)
    requires heap.Valid()
    modifies heap
    ensures heap.Valid() && heap.refusals >= old(heap.refusals)
    ensures r.Some? <==> ParseText(text).Some? && heap.refusals == old(heap.refusals)
    ensures r.Some? ==>
      && ParseText(text) == Some(Erase(r.value)) && Sound(r.value)
      && heap.live == old(heap.live) + Blocks(r.value)
    ensures r.None? ==> heap.live == old(heap.live)
  {
    hide ParseValue, SkipBlanks, Blocks, Sound, Allocator.Valid;
    if |text| == 0 {
      return None;
    }
    var x := new Cursor(text);
    r := ParseDom(x, heap);
    if r.None? {
      return None;
    }
    x.SkipWs();
    if x.p != |text| {
      Release(r.value, heap, old(heap.live));
      return None;
    }
  }
}
