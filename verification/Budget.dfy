/**
 * Byte budgets in 64-bit arithmetic: limitio.Copy (internal/limitio/limitio.go) and the
 * extraction budget shared by the entries of one archive (extract/extract.go).
 */
module Budget {
  import opened Options
  import opened GitObjects
  import opened Checkout

  const MAX_INT64 := 0x7fff_ffff_ffff_ffff

  function Wrap64(x: int): int {
    (x + MAX_INT64 + 1) % (2 * (MAX_INT64 + 1)) - MAX_INT64 - 1
  }

  /** How much of a source of that size a limit reader hands over. */
  function Limited(size: nat, limit: int): nat {
    if limit <= 0 then 0 else if size < limit then size else limit
  }

  datatype Charge = Charge(taken: nat, over: bool)

  /** Reading one past the remaining budget, so that an entry sitting exactly on it is told apart. */
  function Take(size: nat, remaining: int): Charge {
    var n := Limited(size, Wrap64(remaining + 1));
    Charge(n, n > remaining)
  }

  /** What a budget is for: an entry that fits is taken whole, one that does not is noticed. */
  ghost predicate Faithful(size: nat, remaining: int) {
    var c := Take(size, remaining);
    (c.over <==> size > remaining) && (!c.over ==> c.taken == size) && c.taken <= remaining + 1
  }

  /** The one-past read is right for every source exactly when adding one does not wrap. */
  lemma TakeExactIffNoWrap(remaining: int)
    requires 0 <= remaining <= MAX_INT64
    ensures (forall size: nat :: Faithful(size, remaining)) <==> remaining < MAX_INT64
  {
    if remaining == MAX_INT64 {
      assert Take(1, remaining) == Charge(0, false);
      assert !Faithful(1, remaining);
    } else {
      assert Wrap64(remaining + 1) == remaining + 1;
    }
  }

  class Sink {
    var data: Bytes
  }

  /** limitio.Copy: ok, the count, and what reached dst. */
  method Copy(dst: Sink, src: Bytes, max: int) returns (n: nat, ok: bool)
    requires max <= MAX_INT64
    modifies dst
    ensures n <= |src| && dst.data == old(dst.data) + src[..n]
    ensures max <= 0 ==> ok && n == |src|
    ensures 0 < max < MAX_INT64 ==> (ok <==> |src| <= max) && n == if ok then |src| else max + 1
    ensures max == MAX_INT64 ==> ok && n == 0
  {
    if max <= 0 {
      dst.data := dst.data + src;
      assert src == src[..|src|];
      return |src|, true;
    }
    var c := Take(|src|, max);
    dst.data := dst.data + src[..c.taken];
    return c.taken, !c.over;
  }

  // Archives.

  datatype Kind = Folder | Plain | Special
  datatype Member = Member(name: string, kind: Kind, content: Bytes)

  /** untar writes regular files only; extractZip writes whatever is not a directory. */
  predicate Writes(m: Member, zip: bool) {
    m.kind == Plain || (zip && m.kind == Special)
  }

  /** The bytes an archive charges against its budget. */
  function Charged(members: seq<Member>, zip: bool): nat {
    if members == [] then 0
    else
      var m := members[|members| - 1];
      Charged(members[..|members| - 1], zip) + if Writes(m, zip) then |m.content| else 0
  }

  predicate AllInside(root: string, members: seq<Member>) {
    forall m :: m in members ==> DestKey(root, m.name).Some?
  }

  /** The files of an archive that fits, written in order. */
  function Unpacked(files: map<string, Bytes>, root: string, members: seq<Member>, zip: bool): map<string, Bytes>
    requires AllInside(root, members)
  {
    if members == [] then files
    else
      var n := |members| - 1;
      var before := Unpacked(files, root, members[..n], zip);
      assert members[n] in members;
      if Writes(members[n], zip) then before[DestKey(root, members[n].name).value := members[n].content] else before
  }

  lemma {:induction false} ChargedGrows(members: seq<Member>, zip: bool, n: nat)
    requires n <= |members|
    ensures Charged(members[..n], zip) <= Charged(members, zip)
    decreases |members| - n
  {
    if n < |members| {
      assert members[..n + 1][..n] == members[..n];
      ChargedGrows(members, zip, n + 1);
    } else {
      assert members[..n] == members;
    }
  }

  lemma NextMember(files: map<string, Bytes>, root: string, members: seq<Member>, zip: bool, i: nat)
    requires i < |members| && AllInside(root, members[..i])
    ensures var m := members[i];
            && Charged(members[..i + 1], zip) == Charged(members[..i], zip) +
                (if Writes(m, zip) then |m.content| else 0)
            && (DestKey(root, m.name).Some? ==>
                  && AllInside(root, members[..i + 1])
                  && Unpacked(files, root, members[..i + 1], zip)
                     == var before := Unpacked(files, root, members[..i], zip);
                        if Writes(m, zip) then before[DestKey(root, m.name).value := m.content] else before)
  {
    assert members[..i + 1][..i] == members[..i] && members[..i + 1] == members[..i] + [members[i]];
  }

  /** A tarball writes its regular files, a zip archive everything but its directories. */
  predicate LandsAt(root: string, m: Member, zip: bool, key: string) {
    (if zip then m.kind != Folder else m.kind == Plain) && DestKey(root, m.name) == Some(key)
  }

  /** Members that land elsewhere leave a file as it was. */
  lemma {:induction false} OthersLeaveIt(
    files: map<string, Bytes>, root: string, a: seq<Member>, b: seq<Member>, zip: bool, key: string)
    requires AllInside(root, a) && AllInside(root, a + b) && forall m :: m in b ==> !LandsAt(root, m, zip, key)
    ensures var before, after := Unpacked(files, root, a, zip), Unpacked(files, root, a + b, zip);
            (key in after <==> key in before) && (key in after ==> after[key] == before[key])
    decreases b
  {
    if b == [] {
      assert a + b == a;
    } else {
      var n := |b| - 1;
      assert (a + b)[..|a + b| - 1] == a + b[..n] && (a + b)[|a + b| - 1] == b[n];
      assert b[n] in b;
      assert forall m :: m in a + b[..n] ==> m in a + b;
      OthersLeaveIt(files, root, a, b[..n], zip, key);
    }
  }

  /** Each file has the content of the last member written there. */
  lemma LastMemberStays(
    files: map<string, Bytes>, root: string, a: seq<Member>, m: Member, b: seq<Member>, zip: bool, key: string)
    requires AllInside(root, a + [m] + b) && LandsAt(root, m, zip, key)
    requires forall x :: x in b ==> !LandsAt(root, x, zip, key)
    ensures var after := Unpacked(files, root, a + [m] + b, zip); key in after && after[key] == m.content
  {
    assert forall x :: x in a + [m] ==> x in a + [m] + b;
    assert (a + [m])[..|a|] == a;
    OthersLeaveIt(files, root, a + [m], b, zip, key);
  }

  /** Wherever it stands, a written member charges its size, and any other nothing. */
  lemma {:induction false} EachIsCharged(a: seq<Member>, m: Member, b: seq<Member>, zip: bool)
    ensures Charged(a + [m] + b, zip)
         == Charged(a + b, zip) + if m.kind == Plain || (zip && m.kind != Folder) then |m.content| else 0
    decreases b
  {
    if b == [] {
      assert a + [m] + b == a + [m] && a + b == a && (a + [m])[..|a|] == a;
    } else {
      var n := |b| - 1;
      EachIsCharged(a, m, b[..n], zip);
      assert (a + [m] + b)[..|a + [m] + b| - 1] == a + [m] + b[..n] && (a + b)[..|a + b| - 1] == a + b[..n];
    }
  }

  class Extractor {
    const root: string
    const limited: bool
    var remaining: int
    var files: map<string, Bytes>
    /** Every byte written to disk, of accepted and of cut-off entries. */
    ghost var total: nat

    constructor (root: string, maxBytes: int)
      ensures this.root == root && limited == (maxBytes > 0) && remaining == maxBytes
      ensures files == map[] && total == 0
    {
      this.root := root;
      limited := maxBytes > 0;
      remaining := maxBytes;
      files := map[];
      total := 0;
    }

    ghost predicate Valid()
      reads this
    {
      limited ==> 0 <= remaining < MAX_INT64
    }

    method WriteFile(key: string, content: Bytes) returns (ok: bool)
      requires Valid()
      modifies this
      ensures Valid()
      ensures ok <==> limited ==> |content| <= old(remaining)
      ensures remaining == if ok && limited then old(remaining) - |content| else old(remaining)
      ensures ok ==> files == old(files)[key := content] && total == old(total) + |content|
      ensures !ok ==> total == old(total) + old(remaining) + 1
    {
      if !limited {
        files := files[key := content];
        total := total + |content|;
        return true;
      }
      var c := Take(|content|, remaining);
      files := files[key := content[..c.taken]];
      total := total + c.taken;
      if c.over {
        return false;
      }
      assert content[..c.taken] == content;
      remaining := remaining - c.taken;
      return true;
    }

    /**
     * untar and extractZip. An archive is accepted exactly when every name stays inside and the
     * written entries fit the budget together; then each file has its whole content and the
     * budget went down by their sum. A refused one has written at most one byte past the budget.
     */
    method Unpack(members: seq<Member>, zip: bool) returns (ok: bool)
      requires Valid()
      modifies this
      ensures Valid()
      ensures ok <==> AllInside(root, members) && (limited ==> Charged(members, zip) <= old(remaining))
      ensures ok ==> files == Unpacked(old(files), root, members, zip)
      ensures ok && limited ==> remaining == old(remaining) - Charged(members, zip)
      ensures ok ==> total == old(total) + Charged(members, zip)
      ensures limited ==> total <= old(total) + old(remaining) + 1
    {
      for i := 0 to |members|
        invariant Valid() && AllInside(root, members[..i])
        invariant remaining == if limited then old(remaining) - Charged(members[..i], zip) else old(remaining)
        invariant files == Unpacked(old(files), root, members[..i], zip)
        invariant total == old(total) + Charged(members[..i], zip)
      {
        var m := members[i];
        NextMember(old(files), root, members, zip, i);
        var key := DestKey(root, m.name);
        if key.None? {
          assert m in members;
          return false;
        }
        if Writes(m, zip) {
          ChargedGrows(members, zip, i + 1);
          var fits := WriteFile(key.value, m.content);
          if !fits {
            return false;
          }
        }
      }
      assert members[..|members|] == members;
      return true;
    }
  }
}
