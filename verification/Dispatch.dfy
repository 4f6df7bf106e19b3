/**
 * Call names and the two dispatch tables (private/minkernel/ArchKit/ArchKit.h and the lookup loops of
 * private/minkernel/HALKit/AMD64/HalCoreInterruptHandler.cpp).  A procedure is an opaque value; running one is
 * reporting it.
 */
module Dispatch {
  import opened Wrappers

  // ---------------------------------------------------------------- the hash of a name

  /** One FNV turn.  The Char is signed, so the eight bits are widened with their sign. */
  function Turn(h: bv64, c: bv8): bv64 {
    Multiply(h ^ SignExtend(c))
  }

  function Multiply(h: bv64): bv64 {
    h * 0x100_0000_01B3
  }

  function SignExtend(c: bv8): bv64 {
    if c & 0x80 == 0 then c as bv64 else (c as bv64) | 0xFFFF_FFFF_FFFF_FF00
  }

  function Turns(h: bv64, text: seq<bv8>): bv64
    decreases |text|
  {
    if text == [] then h else Turns(Turn(h, text[0]), text[1..])
  }

  /** The hash of a name; the empty name has hash 0. */
  function NameHash(text: seq<bv8>): bv64 {
    if text == [] then 0 else Turns(0xCBF2_9CE4_8422_2325, text)
  }

  /** The characters before the terminator. */
  function Text(memory: seq<bv8>): (t: seq<bv8>)
    ensures |t| <= |memory|
  {
    if memory == [] || memory[0] == 0 then [] else [memory[0]] + Text(memory[1..])
  }

  lemma {:induction false} TextIs(memory: seq<bv8>, n: nat)
    requires n < |memory| && memory[n] == 0 && forall i :: 0 <= i < n ==> memory[i] != 0
    ensures Text(memory) == memory[..n]
  {
    if n > 0 {
      TextIs(memory[1..], n - 1);
      assert memory[..n] == [memory[0]] + memory[1..][..n - 1];
    }
  }

  /** ke_hash_64. */
  method Hash(name: array?<bv8>) returns (hash: bv64)
    requires name != null ==> 0 in name[..]
    ensures hash == if name == null then 0 else NameHash(Text(name[..]))
  {
    hide Turn, Text;
    if name == null { return 0; }
    ghost var end := First(name[..]);
    TextIs(name[..], end);
    ghost var text := name[..end];
    if name[0] == 0 { return 0; }
    hash := 0xCBF2_9CE4_8422_2325;
    var i := 0;
    while name[i] != 0
      invariant 0 <= i <= end && end < name.Length && name[end] == 0
      invariant Turns(hash, text[i..]) == Turns(0xCBF2_9CE4_8422_2325, text)
      decreases end - i
    {
      assert text[i..][1..] == text[i + 1..];
      hash := Turn(hash, name[i]);
      i := i + 1;
    }
  }

  /** Where the terminator is. */
  ghost function First(memory: seq<bv8>): (n: nat)
    requires 0 in memory
    ensures n < |memory| && memory[n] == 0 && forall i :: 0 <= i < n ==> memory[i] != 0
  {
    if memory[0] == 0 then 0 else 1 + First(memory[1..])
  }

  // ---------------------------------------------------------------- no step of the hash loses anything

  function Unmultiply(h: bv64): bv64 {
    h * 0xCE96_5057_AFF6_957B
  }

  lemma TurnUndone(h: bv64, c: bv8)
    ensures Unmultiply(Turn(h, c)) == h ^ SignExtend(c)
  {
    hide SignExtend, Multiply, Unmultiply;
    Undone(h ^ SignExtend(c));
    MultiplyIs(h ^ SignExtend(c));
  }

  /** The two constants are inverse modulo 2^64. */
  lemma Undone(h: bv64)
    ensures Unmultiply(h * 0x100_0000_01B3) == h
  {
  }

  lemma MultiplyIs(h: bv64)
    ensures Multiply(h) == h * 0x100_0000_01B3
  {
  }

  /** A turn of FNV-1a itself. */
  function FnvTurn(h: bv64, c: bv8): bv64 {
    Multiply(h ^ (c as bv64))
  }

  lemma FnvUndone(h: bv64, c: bv8)
    ensures Unmultiply(FnvTurn(h, c)) == h ^ (c as bv64)
  {
    hide Multiply, Unmultiply;
    Undone(h ^ (c as bv64));
    MultiplyIs(h ^ (c as bv64));
  }

  /** A turn is one of FNV-1a exactly on characters below 0x80; above, the sign reaches the whole hash. */
  lemma TurnIsFnv(h: bv64, c: bv8)
    ensures Turn(h, c) == FnvTurn(h, c) <==> c < 0x80
  {
    hide *;
    if c < 0x80 {
      PlainTurn(h, c);
    } else if Turn(h, c) == FnvTurn(h, c) {
      TurnUndone(h, c);
      FnvUndone(h, c);
      SameExtension(h, c);
    }
  }

  /** Above, the bits a sign fills in are added to the hash before the turn. */
  lemma HighTurn(h: bv64, c: bv8)
    requires c >= 0x80
    ensures Turn(h, c) == FnvTurn(h ^ 0xFFFF_FFFF_FFFF_FF00, c)
  {
    hide Multiply;
    assert h ^ SignExtend(c) == (h ^ 0xFFFF_FFFF_FFFF_FF00) ^ (c as bv64);
  }

  /** The published value of FNV-1a for "a", and the value of a high character. */
  lemma KnownHashes()
    ensures NameHash([0x61]) == 0xAF63_DC4C_8601_EC8C
    ensures NameHash([0x80]) == 0x509C_0CB3_79FD_EC5F
  {
    OneTurn(0xCBF2_9CE4_8422_2325, 0x61);
    OneTurn(0xCBF2_9CE4_8422_2325, 0x80);
  }

  lemma OneTurn(h: bv64, c: bv8)
    ensures Turns(h, [c]) == Turn(h, c)
  {
    hide Turn;
    assert [c][1..] == [];
  }

  /** FNV-1a over a name. */
  function FnvTurns(h: bv64, text: seq<bv8>): bv64
    decreases |text|
  {
    if text == [] then h else FnvTurns(FnvTurn(h, text[0]), text[1..])
  }

  function FnvHash(text: seq<bv8>): bv64 {
    if text == [] then 0 else FnvTurns(0xCBF2_9CE4_8422_2325, text)
  }

  lemma {:induction false} PlainTurns(h: bv64, text: seq<bv8>)
    requires forall i :: 0 <= i < |text| ==> text[i] < 0x80
    ensures Turns(h, text) == FnvTurns(h, text)
    decreases |text|
  {
    hide Turn, FnvTurn;
    if text != [] {
      PlainTurn(h, text[0]);
      PlainTurns(Turn(h, text[0]), text[1..]);
    }
  }

  /** The hash of a name of characters below 0x80 is its FNV-1a hash. */
  lemma AsciiName(text: seq<bv8>)
    requires forall i :: 0 <= i < |text| ==> text[i] < 0x80
    ensures NameHash(text) == FnvHash(text)
  {
    hide Turns, FnvTurns;
    if text != [] {
      PlainTurns(0xCBF2_9CE4_8422_2325, text);
    }
  }

  lemma {:induction false} FnvAppend(h: bv64, s: seq<bv8>, t: seq<bv8>)
    ensures FnvTurns(h, s + t) == FnvTurns(FnvTurns(h, s), t)
    decreases |s|
  {
    hide FnvTurn;
    if s == [] {
      assert s + t == t;
    } else {
      FnvAppend(FnvTurn(h, s[0]), s[1..], t);
      assert (s + t)[1..] == s[1..] + t;
    }
  }

  /** The hash of a name with exactly one character from 0x80 on never is its FNV-1a hash. */
  lemma OneHighCharacter(text: seq<bv8>, k: nat)
    requires k < |text| && text[k] >= 0x80
    requires forall i :: 0 <= i < |text| && i != k ==> text[i] < 0x80
    ensures NameHash(text) != FnvHash(text)
  {
    hide Turn, FnvTurn, Turns, FnvTurns;
    var seed, before, after := 0xCBF2_9CE4_8422_2325, text[..k], text[k + 1..];
    var h := Turns(seed, before);
    PlainTurns(seed, before);
    TurnsSplit(text, k);
    FnvSplit(text, k);
    TurnIsFnv(h, text[k]);
    PlainTurns(FnvTurn(h, text[k]), after);
    if NameHash(text) == FnvHash(text) {
      TurnsInjective(Turn(h, text[k]), FnvTurn(h, text[k]), after);
    }
  }

  lemma FnvSplit(s: seq<bv8>, k: nat)
    requires k < |s|
    ensures FnvTurns(0xCBF2_9CE4_8422_2325, s)
         == FnvTurns(FnvTurn(FnvTurns(0xCBF2_9CE4_8422_2325, s[..k]), s[k]), s[k + 1..])
  {
    hide FnvTurn;
    assert s == s[..k] + s[k..];
    FnvAppend(0xCBF2_9CE4_8422_2325, s[..k], s[k..]);
    FnvOne(FnvTurns(0xCBF2_9CE4_8422_2325, s[..k]), s[k..]);
    assert s[k..][1..] == s[k + 1..];
  }

  lemma FnvOne(h: bv64, s: seq<bv8>)
    requires s != []
    ensures FnvTurns(h, s) == FnvTurns(FnvTurn(h, s[0]), s[1..])
  {
    hide FnvTurn;
  }

  lemma PlainTurn(h: bv64, c: bv8)
    requires c < 0x80
    ensures Turn(h, c) == FnvTurn(h, c)
  {
    hide Multiply;
    assert SignExtend(c) == c as bv64;
  }

  lemma SameExtension(h: bv64, c: bv8)
    requires h ^ SignExtend(c) == h ^ (c as bv64)
    ensures c < 0x80
  {
    assert (h ^ SignExtend(c)) ^ h == SignExtend(c);
    assert (h ^ (c as bv64)) ^ h == c as bv64;
  }

  lemma TurnInjective(g: bv64, h: bv64, c: bv8)
    requires Turn(g, c) == Turn(h, c)
    ensures g == h
  {
    hide SignExtend;
    TurnUndone(g, c);
    TurnUndone(h, c);
    hide *;
    assert g == (g ^ SignExtend(c)) ^ SignExtend(c);
    assert h == (h ^ SignExtend(c)) ^ SignExtend(c);
  }

  lemma TurnDistinguishes(h: bv64, c: bv8, d: bv8)
    requires Turn(h, c) == Turn(h, d)
    ensures c == d
  {
    TurnUndone(h, c);
    TurnUndone(h, d);
    assert (h ^ SignExtend(c)) ^ h == SignExtend(c);
    assert (h ^ SignExtend(d)) ^ h == SignExtend(d);
    assert c == (SignExtend(c) & 0xFF) as bv8;
    assert d == (SignExtend(d) & 0xFF) as bv8;
  }

  lemma {:induction false} TurnsInjective(g: bv64, h: bv64, text: seq<bv8>)
    requires Turns(g, text) == Turns(h, text)
    ensures g == h
    decreases |text|
  {
    hide Turn;
    if |text| > 0 {
      TurnsInjective(Turn(g, text[0]), Turn(h, text[0]), text[1..]);
      TurnInjective(g, h, text[0]);
    }
  }

  lemma {:induction false} TurnsAppend(h: bv64, s: seq<bv8>, t: seq<bv8>)
    ensures Turns(h, s + t) == Turns(Turns(h, s), t)
    decreases |s|
  {
    hide Turn;
    if s == [] {
      assert s + t == t;
    } else {
      TurnsAppend(Turn(h, s[0]), s[1..], t);
      assert (s + t)[1..] == s[1..] + t;
    }
  }

  /** Names of one length that differ in exactly one character have different hashes. */
  lemma OneCharacter(s: seq<bv8>, t: seq<bv8>, k: nat)
    requires |s| == |t| && k < |s| && s[k] != t[k]
    requires forall i :: 0 <= i < |s| && i != k ==> s[i] == t[i]
    ensures NameHash(s) != NameHash(t)
  {
    hide Turn, Turns;
    var h := Turns(0xCBF2_9CE4_8422_2325, s[..k]);
    TurnsSplit(s, k);
    TurnsSplit(t, k);
    assert s[..k] == t[..k] && s[k + 1..] == t[k + 1..];
    if NameHash(s) == NameHash(t) {
      TurnsInjective(Turn(h, s[k]), Turn(h, t[k]), s[k + 1..]);
      TurnDistinguishes(h, s[k], t[k]);
    }
  }

  lemma TurnsSplit(s: seq<bv8>, k: nat)
    requires k < |s|
    ensures Turns(0xCBF2_9CE4_8422_2325, s)
         == Turns(Turn(Turns(0xCBF2_9CE4_8422_2325, s[..k]), s[k]), s[k + 1..])
  {
    hide Turn;
    assert s == s[..k] + s[k..];
    TurnsAppend(0xCBF2_9CE4_8422_2325, s[..k], s[k..]);
    assert s[k..][1..] == s[k + 1..];
  }

  // ---------------------------------------------------------------- a dispatch table

  /** One slot of a table. */
  datatype Slot<P> = Slot(hash: bv64, hooked: bool, proc: Option<P>)

  /** One accepted request to bind a name. */
  datatype Binding<P> = Binding(hash: bv64, proc: P)

  /** The requests that bind: a name with a hash, and a procedure. */
  predicate Accepts<P>(hash: bv64, proc: Option<P>) {
    hash != 0 && proc.Some?
  }

  /** The bindings after one more request. */
  function Bind<P>(bound: seq<Binding<P>>, hash: bv64, proc: Option<P>): seq<Binding<P>> {
    if Accepts(hash, proc) && |bound| < 512 then bound + [Binding(hash, proc.value)] else bound
  }

  /** The procedures bound to a hash, in binding order. */
  function Procs<P>(bound: seq<Binding<P>>, hash: bv64): seq<P>
    decreases |bound|
  {
    if bound == [] then []
    else (if bound[0].hash == hash then [bound[0].proc] else []) + Procs(bound[1..], hash)
  }

  /** The slots show a list of bindings: a hooked prefix and nothing hooked after it. */
  ghost predicate Shows<P(!new)>(slots: seq<Slot<P>>, bound: seq<Binding<P>>) {
    && |slots| == 512 && |bound| <= 512
    && (forall i :: 0 <= i < |bound| ==> slots[i] == Slot(bound[i].hash, true, Some(bound[i].proc)))
    && (forall i :: |bound| <= i < 512 ==> !slots[i].hooked)
  }

  class Table<P(!new)> {
    const slots: array<Slot<P>>
    ghost var bound: seq<Binding<P>>

    ghost predicate Valid()
      reads this, slots
    {
      slots.Length == 512 && Shows(slots[..], bound)
    }

    /** A static table: all zeros. */
    constructor ()
      ensures Valid() && fresh(slots) && bound == []
    {
      slots := new Slot<P>[512](_ => Slot(0, false, None));
      bound := [];
    }

    // The two tables of the source differ only in the type of their procedures.

    /** ke_install_syscall and ke_install_kerncall. */
    method Install(name: array?<bv8>, proc: Option<P>) returns (slot: int)
      requires Valid() && (name != null ==> 0 in name[..])
      modifies slots, `bound
      ensures Valid()
      ensures bound == Bind(old(bound), if name == null then 0 else NameHash(Text(old(name[..]))), proc)
      ensures slot == if bound == old(bound) then -1 else |old(bound)|
    {
      hide NameHash;
      if name == null { return -1; }
      var hash := Hash(name);
      EmptyName();
      if name[0] == 0 {
        return -1;
      }
      if hash == 0 || proc.None? { return -1; }
      var i := 0;
      while i < 512
        invariant 0 <= i <= |bound|
      {
        if !slots[i].hooked {
          slots[i] := Slot(hash, true, proc);
          bound := bound + [Binding(hash, proc.value)];
          return i;
        }
        i := i + 1;
      }
      return -1;
    }

    /** hal_system_call_enter: the procedures run, at most one.  `someone` says that there is a current user. */
    method SystemCall(someone: bool, hash: bv64) returns (ran: seq<P>)
      requires Valid()
      ensures ran == if someone && Procs(bound, hash) != [] then [Procs(bound, hash)[0]] else []
    {
      ran := [];
      if !someone { return; }
      var i := 0;
      while i < 512
        invariant 0 <= i <= 512
        invariant Procs(bound[..if i < |bound| then i else |bound|], hash) == []
      {
        if i < |bound| {
          ProcsFrom(bound, i, hash);
        }
        if slots[i].hooked && slots[i].hash == hash {
          if slots[i].proc.None? { break; }
          return [slots[i].proc.value];
        }
        i := i + 1;
      }
      assert bound[..|bound|] == bound;
    }

    /** hal_kernel_call_enter: the procedures run, in order. */
    method KernelCall(root: Option<User>, current: Option<User>, hash: bv64) returns (ran: seq<P>)
      requires Valid()
      ensures ran == if root.Some? && current == root && root.value.superUser then Procs(bound, hash) else []
    {
      ran := [];
      if root.None? { return; }
      if current != root { return; }
      if !current.value.superUser { return; }
      var i := 0;
      while i < 512
        invariant 0 <= i <= 512
        invariant ran == Procs(bound[..if i < |bound| then i else |bound|], hash)
      {
        if i < |bound| {
          assert bound[..i + 1] == bound[..i] + [bound[i]];
          ProcsAppend(bound[..i], [bound[i]], hash);
        }
        if slots[i].hooked && slots[i].hash == hash {
          if slots[i].proc.Some? {
            ran := ran + [slots[i].proc.value];
          }
        }
        i := i + 1;
      }
      assert bound[..|bound|] == bound;
    }
  }

  /** A user; two handles are the same user when they are equal. */
  datatype User = User(id: nat, superUser: bool)

  lemma EmptyName()
    ensures NameHash([]) == 0
  {
  }

  lemma {:induction false} ProcsAppend<P>(a: seq<Binding<P>>, b: seq<Binding<P>>, hash: bv64)
    ensures Procs(a + b, hash) == Procs(a, hash) + Procs(b, hash)
    decreases |a|
  {
    if a == [] {
      assert a + b == b;
    } else {
      var first := if a[0].hash == hash then [a[0].proc] else [];
      ProcsAppend(a[1..], b, hash);
      assert (a + b)[1..] == a[1..] + b && (a + b)[0] == a[0];
      assert first + (Procs(a[1..], hash) + Procs(b, hash)) == (first + Procs(a[1..], hash)) + Procs(b, hash);
    }
  }

  /** The procedures bound from slot i on, when no earlier slot has the hash. */
  lemma ProcsFrom<P>(bound: seq<Binding<P>>, i: nat, hash: bv64)
    requires i < |bound| && Procs(bound[..i], hash) == []
    ensures Procs(bound[..i + 1], hash) == if bound[i].hash == hash then [bound[i].proc] else []
    ensures bound[i].hash == hash ==> Procs(bound, hash) != [] && Procs(bound, hash)[0] == bound[i].proc
  {
    assert bound == bound[..i] + bound[i..];
    ProcsAppend(bound[..i], bound[i..], hash);
    assert bound[..i + 1] == bound[..i] + [bound[i]];
    ProcsAppend(bound[..i], [bound[i]], hash);
    assert Procs([bound[i]], hash) == if bound[i].hash == hash then [bound[i].proc] else [];
  }

  // ---------------------------------------------------------------- runs of installs

  datatype Request<P> = Request(text: seq<bv8>, proc: Option<P>)

  /** The bindings after a run of requests. */
  function InstallAll<P>(bound: seq<Binding<P>>, requests: seq<Request<P>>): seq<Binding<P>>
    decreases |requests|
  {
    if requests == [] then bound
    else InstallAll(Bind(bound, NameHash(requests[0].text), requests[0].proc), requests[1..])
  }

  /** What the acceptable requests ask for. */
  function Wanted<P>(requests: seq<Request<P>>): seq<Binding<P>>
    decreases |requests|
  {
    if requests == [] then []
    else
      var r := requests[0];
      (if Accepts(NameHash(r.text), r.proc) then [Binding(NameHash(r.text), r.proc.value)] else [])
      + Wanted(requests[1..])
  }

  function Least(a: nat, b: nat): nat { if a < b then a else b }

  /** Every run leaves the table holding the first 512 acceptable requests, in the order they were made. */
  lemma {:induction false} InstallAllIs<P>(bound: seq<Binding<P>>, requests: seq<Request<P>>)
    requires |bound| <= 512
    ensures InstallAll(bound, requests)
         == (bound + Wanted(requests))[..Least(512, |bound| + |Wanted(requests)|)]
    decreases |requests|
  {
    hide NameHash;
    if requests == [] {
      assert (bound + Wanted(requests))[..|bound|] == bound;
    } else {
      var r := requests[0];
      InstallAllIs(Bind(bound, NameHash(r.text), r.proc), requests[1..]);
      if Accepts(NameHash(r.text), r.proc) {
        hide InstallAll;
        FirstPlaces(bound, Binding(NameHash(r.text), r.proc.value), Wanted(requests[1..]));
      }
    }
  }

  /** One more binding before the rest of them. */
  lemma FirstPlaces<P>(bound: seq<Binding<P>>, b: Binding<P>, rest: seq<Binding<P>>)
    requires |bound| <= 512
    ensures var next := if |bound| < 512 then bound + [b] else bound;
      (next + rest)[..Least(512, |next| + |rest|)]
      == (bound + ([b] + rest))[..Least(512, |bound| + |[b] + rest|)]
  {
    if |bound| < 512 {
      assert bound + ([b] + rest) == (bound + [b]) + rest;
    } else {
      assert (bound + rest)[..512] == bound == (bound + ([b] + rest))[..512];
    }
  }

  /** A slot once bound is never rebound, so what a hash runs only ever grows at the end. */
  lemma NeverRebound<P>(bound: seq<Binding<P>>, requests: seq<Request<P>>, hash: bv64)
    requires |bound| <= 512
    ensures bound <= InstallAll(bound, requests)
    ensures Procs(bound, hash) <= Procs(InstallAll(bound, requests), hash)
  {
    hide Procs, Wanted, InstallAll;
    InstallAllIs(bound, requests);
    var after := InstallAll(bound, requests);
    assert after == bound + after[|bound|..];
    ProcsAppend(bound, after[|bound|..], hash);
  }

  /** Two names of one length that differ in exactly one character. */
  predicate OneApart(s: seq<bv8>, t: seq<bv8>) {
    |s| == |t| && exists k :: 0 <= k < |s| && DifferOnlyAt(s, t, k)
  }

  predicate DifferOnlyAt(s: seq<bv8>, t: seq<bv8>, k: nat)
    requires |s| == |t| && k < |s|
  {
    s[k] != t[k] && forall i :: 0 <= i < |s| && i != k ==> s[i] == t[i]
  }

  /** Installing any number of names one character away from a name does not change what that name runs. */
  lemma {:induction false} NeverShadowed<P>(bound: seq<Binding<P>>, requests: seq<Request<P>>, text: seq<bv8>)
    requires |bound| <= 512 && forall r :: r in requests ==> OneApart(r.text, text)
    ensures Procs(InstallAll(bound, requests), NameHash(text)) == Procs(bound, NameHash(text))
    decreases |requests|
  {
    hide NameHash, Procs, OneApart;
    if requests != [] {
      var r := requests[0];
      var next := Bind(bound, NameHash(r.text), r.proc);
      assert r in requests;
      NeverShadowed(next, requests[1..], text);
      Apart(r.text, text);
      if next != bound {
        var b := Binding(NameHash(r.text), r.proc.value);
        ProcsAppend(bound, [b], NameHash(text));
        ProcsOther(b, NameHash(text));
      }
    }
  }

  lemma Apart(s: seq<bv8>, t: seq<bv8>)
    requires OneApart(s, t)
    ensures NameHash(s) != NameHash(t)
  {
    hide NameHash;
    var k :| 0 <= k < |s| && DifferOnlyAt(s, t, k);
    OneCharacter(s, t, k);
  }

  lemma ProcsOther<P>(b: Binding<P>, hash: bv64)
    requires b.hash != hash
    ensures Procs([b], hash) == []
  {
  }

  /** A name installed twice, with room for both: a kernel call runs both procedures after what it ran before, a system
      call still runs the first of them all. */
  lemma InstalledTwice<P>(bound: seq<Binding<P>>, text: seq<bv8>, p: P, q: P)
    requires |bound| <= 510 && NameHash(text) != 0
    ensures var after := InstallAll(bound, [Request(text, Some(p)), Request(text, Some(q))]);
      Procs(after, NameHash(text)) == Procs(bound, NameHash(text)) + [p, q]
  {
    var hash := NameHash(text);
    var once := bound + [Binding(hash, p)];
    hide NameHash, Procs, InstallAll;
    InstallBoth(bound, text, p, q);
    ProcsAppend(bound, [Binding(hash, p)], hash);
    ProcsAppend(once, [Binding(hash, q)], hash);
    ProcsOne(p, hash);
    ProcsOne(q, hash);
    assert Procs(bound, hash) + [p] + [q] == Procs(bound, hash) + [p, q];
  }

  lemma InstallBoth<P>(bound: seq<Binding<P>>, text: seq<bv8>, p: P, q: P)
    requires |bound| <= 510 && NameHash(text) != 0
    ensures InstallAll(bound, [Request(text, Some(p)), Request(text, Some(q))])
      == bound + [Binding(NameHash(text), p)] + [Binding(NameHash(text), q)]
  {
    hide NameHash, InstallAll;
    var first, second := Request(text, Some(p)), Request(text, Some(q));
    var once := bound + [Binding(NameHash(text), p)];
    assert [first, second] == [first] + [second];
    assert [second] == [second] + [];
    hide *;
    InstallOne(bound, text, p, [second]);
    InstallOne(once, text, q, []);
    InstallNone(once + [Binding(NameHash(text), q)]);
  }

  lemma InstallNone<P>(bound: seq<Binding<P>>)
    ensures InstallAll(bound, []) == bound
  {
  }

  lemma InstallOne<P>(bound: seq<Binding<P>>, text: seq<bv8>, p: P, rest: seq<Request<P>>)
    requires |bound| < 512 && NameHash(text) != 0
    ensures InstallAll(bound, [Request(text, Some(p))] + rest) == InstallAll(bound + [Binding(NameHash(text), p)], rest)
  {
    hide NameHash;
    assert ([Request(text, Some(p))] + rest)[1..] == rest;
  }

  lemma ProcsOne<P>(p: P, hash: bv64)
    ensures Procs([Binding(hash, p)], hash) == [p]
  {
  }

  /** The hash is bound to at most one slot. */
  predicate BoundOnce<P>(bound: seq<Binding<P>>, hash: bv64) {
    forall i, j :: 0 <= i < j < |bound| ==> !(bound[i].hash == hash && bound[j].hash == hash)
  }

  /** A system call runs the earliest binding only, a kernel call every one: they agree exactly when the hash is
      bound at most once. */
  lemma KernelCallRunsOne<P>(bound: seq<Binding<P>>, hash: bv64)
    ensures |Procs(bound, hash)| <= 1 <==> BoundOnce(bound, hash)
  {
    CountBound(bound, hash);
  }

  lemma {:induction false} CountBound<P>(bound: seq<Binding<P>>, hash: bv64)
    ensures |Procs(bound, hash)| <= 1 <==> BoundOnce(bound, hash)
    ensures Procs(bound, hash) == [] <==> forall i :: 0 <= i < |bound| ==> bound[i].hash != hash
    decreases |bound|
  {
    if bound != [] {
      CountBound(bound[1..], hash);
      assert forall i :: 0 < i < |bound| ==> bound[i] == bound[1..][i - 1];
      if BoundOnce(bound, hash) {
        assert forall i :: 0 <= i < |bound[1..]| ==> bound[1..][i] == bound[i + 1];
        assert BoundOnce(bound[1..], hash);
      } else {
        var i, j :| 0 <= i < j < |bound| && bound[i].hash == hash && bound[j].hash == hash;
        if i > 0 {
          assert bound[1..][i - 1].hash == hash && bound[1..][j - 1].hash == hash;
        } else {
          assert bound[1..][j - 1].hash == hash;
        }
      }
    }
  }
}
