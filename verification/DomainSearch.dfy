module DomainSearch {
  // dnrd's choice of the servers for a name: the longest configured domain that the name ends
  // with. The code compares the bytes of encoded names; it is proved when that is the same as
  // comparing labels.

  import opened Common
  import opened DnsName

  predicate Proper(labels: seq<Label>) {
    forall k :: 0 <= k < |labels| ==> 0 < |labels[k]| <= 63
  }

  /** An encoded name without its final zero, as a C string. */
  function Bare(labels: seq<Label>, i: nat): (r: seq<Byte>)
    requires Proper(labels) && i <= |labels|
    decreases |labels| - i
  {
    if i == |labels| then [] else [|labels[i]|] + labels[i] + Bare(labels, i + 1)
  }

  // ---------- The search on bytes ----------

  predicate ByteSuffix(d: seq<Byte>, name: seq<Byte>) {
    |d| <= |name| && name[|name| - |d|..] == d
  }

  /** The longest of the first n domains that the name ends with, the first of several; no empty
      one. */
  ghost predicate IsLongestOf(domains: seq<seq<Byte>>, n: nat, name: seq<Byte>, r: Option<nat>)
    requires n <= |domains|
  {
    match r
    case None => forall i :: 0 <= i < n && ByteSuffix(domains[i], name) ==> domains[i] == []
    case Some(k) =>
      && k < n && domains[k] != [] && ByteSuffix(domains[k], name)
      && (forall i :: 0 <= i < n && ByteSuffix(domains[i], name) ==> |domains[i]| <= |domains[k]|)
      && (forall i :: 0 <= i < k && ByteSuffix(domains[i], name) ==> |domains[i]| < |domains[k]|)
  }

  ghost predicate IsLongest(domains: seq<seq<Byte>>, name: seq<Byte>, r: Option<nat>) {
    IsLongestOf(domains, |domains|, name, r)
  }

  /** strncmp(d, name + from, limit) == 0. */
  predicate SameUpTo(d: seq<Byte>, name: seq<Byte>, from: nat, limit: nat)
    requires from <= |name|
  {
    var s := name[from..];
    if limit <= |d| && limit <= |s| then d[..limit] == s[..limit] else d == s
  }

  /** search_subdomnode over the domains behind the list head; None is the head, the default.
      maxlen bounds the name. Names and domains are C strings. */
  method SearchSubdomain(domains: seq<seq<Byte>>, name: seq<Byte>, maxlen: nat) returns (curr: Option<nat>)
    requires |name| < maxlen && 0 !in name && forall i :: 0 <= i < |domains| ==> 0 !in domains[i]
    ensures IsLongest(domains, name, curr)
  {
    var maxfound := 0;
    curr := None;
    for i := 0 to |domains|
      invariant IsLongestOf(domains, i, name, curr)
      invariant maxfound == if curr.Some? then |domains[curr.value]| else 0
    {
      var d := domains[i];
      var n, h := |name|, if |d| < maxlen then |d| else maxlen;
      var p := if n > h then n - h else 0;
      ComparesSuffix(d, name, maxlen);
      if SameUpTo(d, name, p, maxlen - p) && h > maxfound {
        maxfound := h;
        curr := Some(i);
      }
    }
  }

  /** The comparison of search_subdomnode is that of a suffix. */
  lemma ComparesSuffix(d: seq<Byte>, name: seq<Byte>, maxlen: nat)
    requires |name| < maxlen
    ensures var h := if |d| < maxlen then |d| else maxlen;
            var p := if |name| > h then |name| - h else 0;
            && (SameUpTo(d, name, p, maxlen - p) <==> ByteSuffix(d, name)) && (ByteSuffix(d, name) ==> h == |d|)
  {
  }

  // ---------- Bytes and labels ----------

  /** The last labels of the name are those of d. */
  predicate LabelSuffix(d: seq<Label>, name: seq<Label>) {
    |d| <= |name| && forall i :: 0 <= i < |d| ==> d[i] == name[|name| - |d| + i]
  }

  /** A suffix of h bytes begins where a label begins. */
  ghost predicate Aligned(name: seq<Label>, h: nat)
    requires Proper(name)
  {
    exists k :: 0 <= k <= |name| && |Bare(name, k)| == h
  }

  lemma {:induction false} BareSuffix(name: seq<Label>, k: nat)
    requires Proper(name) && k <= |name|
    ensures ByteSuffix(Bare(name, k), Bare(name, 0))
    decreases k
  {
    if k > 0 {
      BareSuffix(name, k - 1);
      SuffixOfSuffix(Bare(name, k), [|name[k - 1]|] + name[k - 1], Bare(name, 0));
    }
  }

  lemma SuffixOfSuffix(a: seq<Byte>, pre: seq<Byte>, c: seq<Byte>)
    requires ByteSuffix(pre + a, c)
    ensures ByteSuffix(a, c)
  {
  }

  lemma {:induction false} BareSlice(name: seq<Label>, d: seq<Label>, k: nat, i: nat)
    requires Proper(name) && Proper(d) && i <= |d| && k + |d| == |name| && forall x :: 0 <= x < |d| ==>
      d[x] == name[k + x]
    ensures Bare(d, i) == Bare(name, k + i)
    decreases |d| - i
  {
    if i < |d| {
      assert d[i] == name[k + i];
      BareSlice(name, d, k, i + 1);
    }
  }

  /** A name is read from its bytes in one way. */
  lemma {:induction false} BareInjective(a: seq<Label>, i: nat, b: seq<Label>, j: nat)
    requires Proper(a) && Proper(b) && i <= |a| && j <= |b| && Bare(a, i) == Bare(b, j)
    ensures |a| - i == |b| - j && forall x :: i <= x < |a| ==> a[x] == b[j + x - i]
    decreases |a| - i
  {
    if i < |a| {
      assert j < |b|;
      BareHead(a, i);
      BareHead(b, j);
      BareInjective(a, i + 1, b, j + 1);
    } else {
      assert j == |b|;
    }
  }

  lemma BareHead(a: seq<Label>, i: nat)
    requires Proper(a) && i < |a|
    ensures |Bare(a, i)| == 1 + |a[i]| + |Bare(a, i + 1)| && Bare(a, i)[0] == |a[i]|
    ensures Bare(a, i)[1..1 + |a[i]|] == a[i] && Bare(a, i)[1 + |a[i]|..] == Bare(a, i + 1)
  {
  }

  /** Label-wise, a name ends with a domain exactly if it does byte-wise and a label begins
      there. */
  lemma {:induction false} LabelSuffixIsAligned(d: seq<Label>, name: seq<Label>)
    requires Proper(d) && Proper(name)
    ensures LabelSuffix(d, name) <==> ByteSuffix(Bare(d, 0), Bare(name, 0)) && Aligned(name, |Bare(d, 0)|)
  {
    if LabelSuffix(d, name) {
      var k := |name| - |d|;
      BareSlice(name, d, k, 0);
      BareSuffix(name, k);
    }
    if ByteSuffix(Bare(d, 0), Bare(name, 0)) && Aligned(name, |Bare(d, 0)|) {
      var k :| 0 <= k <= |name| && |Bare(name, k)| == |Bare(d, 0)|;
      BareSuffix(name, k);
      BareInjective(d, 0, name, k);
    }
  }

  /** A byte inside some label. */
  ghost predicate InLabel(name: seq<Label>, b: Byte) {
    exists k :: 0 <= k < |name| && b in name[k]
  }

  /** A suffix that begins at no label begins with a byte inside one. */
  lemma {:induction false} UnalignedIsInside(name: seq<Label>, k: nat, h: nat)
    requires Proper(name) && k <= |name| && !Aligned(name, h) && 0 < h <= |Bare(name, k)|
    ensures InLabel(name, Bare(name, k)[|Bare(name, k)| - h])
    decreases |name| - k
  {
    assert |Bare(name, k)| != h;
    var b := Bare(name, k);
    if k < |name| {
      BareHead(name, k);
      if h <= |Bare(name, k + 1)| {
        UnalignedIsInside(name, k + 1, h);
        var b' := Bare(name, k + 1);
        assert b[|b| - h] == b'[|b'| - h];
      } else {
        assert b[|b| - h] == name[k][|b| - h - 1];
      }
    }
  }

  /** If no byte inside the name's labels equals the first length byte of the domain, comparing
      bytes is comparing labels. */
  lemma {:induction false} BytesAreEnough(d: seq<Label>, name: seq<Label>)
    requires Proper(d) && Proper(name) && d != [] && !InLabel(name, |d[0]|)
    ensures LabelSuffix(d, name) <==> ByteSuffix(Bare(d, 0), Bare(name, 0))
  {
    LabelSuffixIsAligned(d, name);
    BareHead(d, 0);
    var n, h := Bare(name, 0), |Bare(d, 0)|;
    if ByteSuffix(Bare(d, 0), n) {
      assert n[|n| - h] == n[|n| - h..][0] == |d[0]|;
      if !Aligned(name, h) {
        UnalignedIsInside(name, 0, h);
      }
    }
  }

  // ---------- The search on labels ----------

  function Encode(domains: seq<seq<Label>>): (r: seq<seq<Byte>>)
    requires forall i :: 0 <= i < |domains| ==> Proper(domains[i])
    ensures |r| == |domains| && forall i :: 0 <= i < |r| ==> r[i] == Bare(domains[i], 0)
  {
    seq(|domains|, i requires 0 <= i < |domains| => Bare(domains[i], 0))
  }

  /** The domain of most labels that the name ends with label by label, the first of several. */
  ghost predicate IsBestDomain(domains: seq<seq<Label>>, name: seq<Label>, r: Option<nat>) {
    match r
    case None => forall i :: 0 <= i < |domains| && LabelSuffix(domains[i], name) ==> domains[i] == []
    case Some(k) =>
      && k < |domains| && domains[k] != [] && LabelSuffix(domains[k], name)
      && (forall i :: 0 <= i < |domains| && LabelSuffix(domains[i], name) ==> |domains[i]| <= |domains[k]|)
      && (forall i :: 0 <= i < k && LabelSuffix(domains[i], name) ==> |domains[i]| < |domains[k]|)
  }

  /** Of two suffixes of a name, the one with more labels has more bytes. */
  lemma {:induction false} MoreLabelsMoreBytes(a: seq<Label>, b: seq<Label>, name: seq<Label>)
    requires Proper(a) && Proper(b) && Proper(name) && LabelSuffix(a, name) && LabelSuffix(b, name)
    ensures |a| <= |b| <==> |Bare(a, 0)| <= |Bare(b, 0)|
  {
    SuffixSize(a, name);
    SuffixSize(b, name);
    if |a| <= |b| {
      BareGrows(name, |name| - |b|, |name| - |a|);
    } else {
      BareGrows(name, |name| - |a|, |name| - |b|);
    }
  }

  lemma {:induction false} SuffixSize(a: seq<Label>, name: seq<Label>)
    requires Proper(a) && Proper(name) && LabelSuffix(a, name)
    ensures |Bare(a, 0)| == |Bare(name, |name| - |a|)|
  {
    BareSlice(name, a, |name| - |a|, 0);
  }

  lemma {:induction false} BareGrows(name: seq<Label>, i: nat, j: nat)
    requires Proper(name) && i <= j <= |name|
    ensures |Bare(name, i)| >= |Bare(name, j)| && (i < j ==> |Bare(name, i)| > |Bare(name, j)|)
    decreases j - i
  {
    if i < j {
      BareHead(name, i);
      BareGrows(name, i + 1, j);
    }
  }

  /** Some domain is a suffix byte-wise only, and longer than every domain that is one label-wise. */
  ghost predicate Misled(domains: seq<seq<Label>>, name: seq<Label>)
    requires Proper(name) && forall i :: 0 <= i < |domains| ==> Proper(domains[i])
  {
    exists i :: 0 <= i < |domains| && ByteSuffix(Bare(domains[i], 0), Bare(name, 0)) && !LabelSuffix(domains[i], name)
      && forall j :: 0 <= j < |domains| && LabelSuffix(domains[j], name) ==>
         |Bare(domains[j], 0)| < |Bare(domains[i], 0)|
  }

  /** The search finds the best domain exactly unless it is misled. */
  lemma SearchIsRight(domains: seq<seq<Label>>, name: seq<Label>, r: Option<nat>)
    requires Proper(name) && forall i :: 0 <= i < |domains| ==> Proper(domains[i])
    requires IsLongest(Encode(domains), Bare(name, 0), r)
    ensures IsBestDomain(domains, name, r) <==> !Misled(domains, name)
  {
    var n := Bare(name, 0);
    forall i | 0 <= i < |domains|
      ensures LabelSuffix(domains[i], name) ==> ByteSuffix(Bare(domains[i], 0), n)
    {
      LabelSuffixIsAligned(domains[i], name);
    }
    if r.Some? {
      var d := domains[r.value];
      if LabelSuffix(d, name) {
        forall i | 0 <= i < |domains| && LabelSuffix(domains[i], name)
          ensures |domains[i]| <= |d| <==> |Bare(domains[i], 0)| <= |Bare(d, 0)|
          ensures |d| <= |domains[i]| <==> |Bare(d, 0)| <= |Bare(domains[i], 0)|
        {
          MoreLabelsMoreBytes(domains[i], d, name);
          MoreLabelsMoreBytes(d, domains[i], name);
        }
        assert IsBestDomain(domains, name, r);
      } else {
        SameSizeSame(domains, name, r.value);
        assert Misled(domains, name);
      }
    } else {
      assert forall i :: 0 <= i < |domains| && ByteSuffix(Encode(domains)[i], n) ==> Encode(domains)[i] == [];
    }
  }

  lemma SameSizeSame(domains: seq<seq<Label>>, name: seq<Label>, k: nat)
    requires Proper(name) && (forall i :: 0 <= i < |domains| ==> Proper(domains[i])) && k < |domains|
    requires IsLongest(Encode(domains), Bare(name, 0), Some(k)) && !LabelSuffix(domains[k], name)
    ensures forall j :: 0 <= j < |domains| && LabelSuffix(domains[j], name) ==>
      |Bare(domains[j], 0)| < |Bare(domains[k], 0)|
  {
    forall j | 0 <= j < |domains| && LabelSuffix(domains[j], name)
      ensures |Bare(domains[j], 0)| < |Bare(domains[k], 0)|
    {
      LabelSuffixIsAligned(domains[j], name);
      LabelSuffixIsAligned(domains[k], name);
      assert ByteSuffix(Encode(domains)[j], Bare(name, 0));
    }
  }

  /** In particular it is right if no byte inside the name's labels is the first length byte of a
      configured domain. */
  lemma SearchIsRightOnPlainNames(domains: seq<seq<Label>>, name: seq<Label>, r: Option<nat>)
    requires Proper(name) && forall i :: 0 <= i < |domains| ==>
      Proper(domains[i]) && (domains[i] != [] ==> !InLabel(name, |domains[i][0]|))
    requires IsLongest(Encode(domains), Bare(name, 0), r)
    ensures IsBestDomain(domains, name, r)
  {
    forall i | 0 <= i < |domains|
      ensures ByteSuffix(Bare(domains[i], 0), Bare(name, 0)) ==> LabelSuffix(domains[i], name)
    {
      if domains[i] != [] {
        BytesAreEnough(domains[i], name);
      }
    }
    SearchIsRight(domains, name, r);
  }

  /** A name whose only label ends with the bytes of the domain: the search is misled. */
  lemma MisledExample()
    ensures var name: seq<Label>, d: seq<Label> := [[98, 1, 97]], [[97]];
            Misled([d], name)
  {
    var name: seq<Label>, d: seq<Label> := [[98, 1, 97]], [[97]];
    assert Proper([d][0]);
    assert Bare(name, 1) == [] && Bare(name, 0) == [3, 98, 1, 97];
    assert Bare(d, 1) == [] && Bare(d, 0) == [1, 97];
    assert Bare(name, 0)[2..] == [1, 97];
    assert !LabelSuffix(d, name);
  }
}
