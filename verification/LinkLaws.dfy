/** Near misses: which pairs become ambiguous links, and that none is dropped unsaid. */
module LinkLaws {
  import opened Partitions
  import opened Clusters
  import opened Stages
  import opened Sequences

  /** A candidate pair a human should see: not merged by the evidence, yet worth recording. */
  ghost predicate NearMiss(reports: seq<Report>, p: Pair, c: Contract) {
    && p.0 < |reports| && p.1 < |reports|
    && !EvidenceOf(reports, p.0, p.1, c).Supported()
    && WorthRecording(EvidenceOf(reports, p.0, p.1, c), c)
  }

  /** The link a pair would be recorded as. */
  ghost function LinkFor(reports: seq<Report>, p: Pair, c: Contract): AmbiguousLink
    requires p.0 < |reports| && p.1 < |reports|
  {
    LinkOf(reports, p, EvidenceOf(reports, p.0, p.1, c))
  }

  /** The links of all near misses, in the order of the candidates. */
  ghost function NearMissLinks(reports: seq<Report>, pairs: seq<Pair>, c: Contract): seq<AmbiguousLink> {
    if pairs == [] then []
    else
      var p := pairs[|pairs| - 1];
      NearMissLinks(reports, pairs[..|pairs| - 1], c) + if NearMiss(reports, p, c) then [LinkFor(reports, p, c)] else []
  }

  lemma TakeSnoc<T>(s: seq<T>, more: seq<T>, n: nat)
    requires |more| <= 1
    ensures Take(s + more, n) == if |Take(s, n)| >= n then Take(s, n) else Take(s, n) + more
  {}

  /** Main result: the links recorded are exactly the first near misses, as many as the contract allows. */
  lemma {:induction false} LinksAreTheFirst(reports: seq<Report>, pairs: seq<Pair>, c: Contract)
    requires Within(pairs, |reports|)
    ensures LinksOf(reports, pairs, c).links == Take(NearMissLinks(reports, pairs, c), c.maximumAmbiguousLinks)
  {
    if pairs != [] {
      var init, last := pairs[..|pairs| - 1], pairs[|pairs| - 1];
      LinksAreTheFirst(reports, init, c);
      TakeSnoc(NearMissLinks(reports, init, c), if NearMiss(reports, last, c) then [LinkFor(reports, last, c)] else [],
               c.maximumAmbiguousLinks);
    }
  }

  /** While nothing is turned away, they are all of them. */
  lemma {:induction false} AllAreRecorded(reports: seq<Report>, pairs: seq<Pair>, c: Contract)
    requires Within(pairs, |reports|) && LinksOf(reports, pairs, c).full == 0
    ensures LinksOf(reports, pairs, c).links == NearMissLinks(reports, pairs, c)
  {
    if pairs != [] { AllAreRecorded(reports, pairs[..|pairs| - 1], c); }
  }

  ghost predicate RecordsNearMiss(reports: seq<Report>, pairs: seq<Pair>, link: AmbiguousLink, c: Contract) {
    exists p :: p in pairs && NearMiss(reports, p, c) && link == LinkFor(reports, p, c)
  }

  lemma {:induction false} NearMissLinksMembers(reports: seq<Report>, pairs: seq<Pair>, c: Contract,
                                                link: AmbiguousLink)
    ensures link in NearMissLinks(reports, pairs, c) <==> RecordsNearMiss(reports, pairs, link, c)
  {
    if pairs != [] {
      NearMissLinksMembers(reports, pairs[..|pairs| - 1], c, link);
      InitAndLast(pairs);
      var init, last := pairs[..|pairs| - 1], pairs[|pairs| - 1];
      assert forall p :: p in pairs <==> p in init || p == last;
    }
  }

  /** So every link is a near miss, and every near miss is among them unless the list was full. */
  lemma LinksMembers(reports: seq<Report>, pairs: seq<Pair>, c: Contract, link: AmbiguousLink)
    requires Within(pairs, |reports|)
    ensures link in LinksOf(reports, pairs, c).links ==> RecordsNearMiss(reports, pairs, link, c)
    ensures LinksOf(reports, pairs, c).full == 0 && RecordsNearMiss(reports, pairs, link, c) ==>
              link in LinksOf(reports, pairs, c).links
  {
    NearMissLinksMembers(reports, pairs, c, link);
    LinksAreTheFirst(reports, pairs, c);
    if LinksOf(reports, pairs, c).full == 0 { AllAreRecorded(reports, pairs, c); }
  }
}
