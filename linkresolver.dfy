/** Choosing the one external link a paper's title points to. */
module LinkResolver {
  import opened Papers

  /** The value of a JavaScript chain `c0 || c1 || ... || undefined` over optional
      strings: the first truthy candidate, or `undefined` when there is none. */
  function FirstTruthy(candidates: seq<Option<string>>): Option<string>
  {
    if candidates == [] then None
    else if Truthy(candidates[0]) then candidates[0]
    else FirstTruthy(candidates[1..])
  }

  /** What `||`-chaining promises: the result is the candidate at the first truthy
      position, and it is `undefined` exactly when no candidate is truthy. */
  lemma {:induction false} FirstTruthyIsFirst(candidates: seq<Option<string>>)
    ensures FirstTruthy(candidates).None? <==>
              forall i :: 0 <= i < |candidates| ==> !Truthy(candidates[i])
    ensures FirstTruthy(candidates).Some? ==>
              exists i :: 0 <= i < |candidates| && candidates[i] == FirstTruthy(candidates) &&
                Truthy(candidates[i]) &&
                forall j :: 0 <= j < i ==> !Truthy(candidates[j])
  {
    if candidates != [] && !Truthy(candidates[0]) {
      var rest := candidates[1..];
      FirstTruthyIsFirst(rest);
      if FirstTruthy(rest).Some? {
        var i :| 0 <= i < |rest| && rest[i] == FirstTruthy(rest) && Truthy(rest[i]) &&
                 forall j :: 0 <= j < i ==> !Truthy(rest[j]);
        assert candidates[i + 1] == rest[i];
        assert forall j :: 1 <= j < i + 1 ==> candidates[j] == rest[j - 1];
      } else {
        assert forall i :: 1 <= i < |candidates| ==> candidates[i] == rest[i - 1];
      }
    } else if candidates != [] {
      assert candidates[0] == FirstTruthy(candidates);
    }
  }

  /** The link candidates of a `links` object, in priority order: pdf, arxiv, doi. */
  function Candidates(l: Links): seq<Option<string>>
  {
    [l.pdf, l.arxiv, l.doi]
  }

  /** `paperHref`: no link without a `links` object; otherwise the first truthy of
      pdf, arxiv and doi, or `undefined`. A resolved link is never the empty string. */
  function PaperHref(links: Option<Links>): (href: Option<string>)
    ensures href.Some? ==> href.value != ""
  {
    match links
    case None => None
    case Some(l) =>
      if Truthy(l.pdf) then l.pdf
      else if Truthy(l.arxiv) then l.arxiv
      else if Truthy(l.doi) then l.doi
      else None
  }

  /** `paperHref` on a present `links` object is the `||`-chain over its candidates
      in the order pdf, arxiv, doi. */
  lemma PaperHrefIsChain(l: Links)
    ensures PaperHref(Some(l)) == FirstTruthy(Candidates(l))
  {
    var cs := Candidates(l);
    assert cs[1..] == [l.arxiv, l.doi];
    assert cs[1..][1..] == [l.doi];
    assert FirstTruthy([l.doi]) == if Truthy(l.doi) then l.doi else None by {
      assert [l.doi][1..] == [];
    }
  }

  /** The full priority rule: pdf wins whenever it is non-empty, whatever arxiv and doi
      are; otherwise arxiv when non-empty; otherwise doi when non-empty; otherwise no
      link. The result is always one of the candidates and never empty. */
  lemma PaperHrefPriority(links: Option<Links>)
    ensures links.None? ==> PaperHref(links).None?
    ensures links.Some? && Truthy(links.value.pdf) ==> PaperHref(links) == links.value.pdf
    ensures links.Some? && !Truthy(links.value.pdf) && Truthy(links.value.arxiv) ==>
              PaperHref(links) == links.value.arxiv
    ensures links.Some? && !Truthy(links.value.pdf) && !Truthy(links.value.arxiv) ==>
              PaperHref(links) == (if Truthy(links.value.doi) then links.value.doi else None)
    ensures PaperHref(links).Some? <==>
              links.Some? && exists i :: 0 <= i < 3 && Truthy(Candidates(links.value)[i])
    ensures PaperHref(links).Some? ==> PaperHref(links) in Candidates(links.value)
  {
    if links.Some? {
      PaperHrefIsChain(links.value);
      FirstTruthyIsFirst(Candidates(links.value));
    }
  }
}
