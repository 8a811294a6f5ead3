/**
 * The line joiner of the code generators: the arguments that are present
 * and non-empty, one per line. `None` stands for the `false`, `null` and
 * `undefined` arguments, which are all dropped like the empty string.
 */
module GeneratorUtils {
  import opened Wrappers
  import Strings

  /** An argument that survives the filter: present and non-empty. */
  predicate Kept(p: Option<string>) {
    p.Some? && p.value != ""
  }

  /** The kept arguments, in their original order. */
  function KeptParts(parts: seq<Option<string>>): (r: seq<string>)
    ensures |r| <= |parts|
    ensures forall k :: 0 <= k < |r| ==> r[k] != ""
  {
    if parts == [] then []
    else
      var n := |parts| - 1;
      KeptParts(parts[..n]) + (if Kept(parts[n]) then [parts[n].value] else [])
  }

  /** `lines`: the kept arguments joined with newlines. */
  function Lines(parts: seq<Option<string>>): string {
    Strings.Join(KeptParts(parts), "\n")
  }

  /** Filtering two runs of arguments is filtering each, in order. */
  lemma {:induction false} KeptPartsAppend(a: seq<Option<string>>, b: seq<Option<string>>)
    ensures KeptParts(a + b) == KeptParts(a) + KeptParts(b)
    decreases |b|
  {
    if b == [] {
      assert a + b == a;
    } else {
      var n := |b| - 1;
      assert (a + b)[..|a| + n] == a + b[..n];
      assert (a + b)[|a| + n] == b[n];
      KeptPartsAppend(a, b[..n]);
    }
  }

  /** Nothing is kept exactly when every argument is dropped. */
  lemma {:induction false} KeptPartsEmptyIff(parts: seq<Option<string>>)
    ensures KeptParts(parts) == [] <==> forall k :: 0 <= k < |parts| ==> !Kept(parts[k])
  {
    if parts != [] {
      var n := |parts| - 1;
      KeptPartsEmptyIff(parts[..n]);
      assert forall k :: 0 <= k < n ==> parts[..n][k] == parts[k];
    }
  }

  /** Joining non-empty pieces gives the empty text only when there are none. */
  lemma JoinNonEmpty(ps: seq<string>, sep: string)
    requires ps != [] && ps[0] != ""
    ensures Strings.Join(ps, sep) != ""
  {
    if |ps| > 1 {
      assert Strings.Join(ps, sep) == ps[0] + sep + Strings.Join(ps[1..], sep);
    }
  }

  /** The result is empty exactly when every argument is dropped. */
  lemma LinesEmptyIff(parts: seq<Option<string>>)
    ensures Lines(parts) == "" <==> forall k :: 0 <= k < |parts| ==> !Kept(parts[k])
  {
    KeptPartsEmptyIff(parts);
    var ks := KeptParts(parts);
    if ks != [] {
      JoinNonEmpty(ks, "\n");
    }
  }

  /** A dropped argument changes nothing, wherever it stands. */
  lemma DroppedArgumentIgnored(a: seq<Option<string>>, p: Option<string>, b: seq<Option<string>>)
    requires !Kept(p)
    ensures Lines(a + [p] + b) == Lines(a + b)
  {
    KeptPartsAppend(a + [p], b);
    KeptPartsAppend(a, [p]);
    KeptPartsAppend(a, b);
    assert [p][..0] == [];
    assert KeptParts([p]) == [];
    assert KeptParts(a) + [] == KeptParts(a);
  }

  /** A kept argument goes at the end, after exactly one newline when something precedes it. */
  lemma KeptArgumentAppended(a: seq<Option<string>>, s: string)
    requires s != ""
    ensures Lines(a + [Some(s)]) == if Lines(a) == "" then s else Lines(a) + "\n" + s
  {
    KeptPartsAppend(a, [Some(s)]);
    assert [Some(s)][..0] == [];
    assert KeptParts([Some(s)]) == [s];
    var ks := KeptParts(a);
    LinesEmptyIff(a);
    KeptPartsEmptyIff(a);
    if ks == [] {
      assert ks + [s] == [s];
    } else {
      Strings.JoinSnoc(ks, s, "\n");
      JoinNonEmpty(ks, "\n");
    }
  }
}
