/** URL admissibility and link filtering. A URL is taken already parsed into
    the six components `urlparse` yields; resolving an `href` against the page
    address (`urljoin`) happens before the model sees the link. */
module Urls {

  datatype Url = Url(scheme: string, netloc: string, path: string, params: string,
                     query: string, fragment: string)

  /** `is_valid_url`: the host is the crawl's own domain or absent, and the
      scheme is `http` or `https`. */
  predicate IsValidUrl(baseDomain: string, u: Url)
  {
    (u.netloc == baseDomain || u.netloc == "") && u.scheme in ["http", "https"]
  }

  /** Admissibility looks only at the scheme and the host: two URLs that
      agree on both are admitted or refused together, whatever their path,
      parameters, query and fragment. */
  lemma ValidUrlDependsOnSchemeAndHost(baseDomain: string, u: Url, v: Url)
    requires u.scheme == v.scheme && u.netloc == v.netloc
    ensures IsValidUrl(baseDomain, u) <==> IsValidUrl(baseDomain, v)
  {
  }

  /** `parsed_link._replace(fragment='')`. */
  function WithoutFragment(u: Url): Url
  {
    u.(fragment := "")
  }

  /** Dropping the fragment does not change whether a URL is admissible, and
      only the fragment is dropped. */
  lemma WithoutFragmentKeepsRest(baseDomain: string, u: Url)
    ensures IsValidUrl(baseDomain, WithoutFragment(u)) == IsValidUrl(baseDomain, u)
    ensures WithoutFragment(u).fragment == ""
    ensures WithoutFragment(u).(fragment := u.fragment) == u
  {
  }

  /** The links `extract_links` collects from the resolved anchor targets of a
      page: each with its fragment dropped, kept when admissible. */
  ghost function LinkSet(baseDomain: string, anchors: seq<Url>): set<Url>
  {
    set a | a in anchors && IsValidUrl(baseDomain, WithoutFragment(a)) :: WithoutFragment(a)
  }

  /** Every collected link is admissible and has no fragment. */
  lemma LinkSetAdmissible(baseDomain: string, anchors: seq<Url>)
    ensures forall l :: l in LinkSet(baseDomain, anchors) ==> l.fragment == "" && IsValidUrl(baseDomain, l)
  {
  }

  /** One more anchor contributes at most its own fragment-free form. */
  lemma LinkSetSnoc(baseDomain: string, anchors: seq<Url>, a: Url)
    ensures LinkSet(baseDomain, anchors + [a]) ==
            LinkSet(baseDomain, anchors) + (if IsValidUrl(baseDomain, WithoutFragment(a)) then {WithoutFragment(a)} else {})
  {
    var l, l' := LinkSet(baseDomain, anchors), LinkSet(baseDomain, anchors + [a]);
    forall x | x in l'
      ensures x in l || (x == WithoutFragment(a) && IsValidUrl(baseDomain, x))
    {
      var b :| b in anchors + [a] && IsValidUrl(baseDomain, WithoutFragment(b)) && x == WithoutFragment(b);
      if b in anchors {
        assert x in l;
      }
    }
    forall x | x in l
      ensures x in l'
    {
      var b :| b in anchors && IsValidUrl(baseDomain, WithoutFragment(b)) && x == WithoutFragment(b);
      assert b in anchors + [a];
    }
    if IsValidUrl(baseDomain, WithoutFragment(a)) {
      assert a in anchors + [a];
      assert WithoutFragment(a) in l';
    }
  }

  /** The loop of `extract_links` over the page's anchors, in document order;
      duplicates collapse because the result is a set. */
  method ExtractLinks(baseDomain: string, anchors: seq<Url>) returns (links: set<Url>)
    ensures links == LinkSet(baseDomain, anchors)
    ensures forall l :: l in links ==> l.fragment == "" && IsValidUrl(baseDomain, l)
    ensures forall a :: a in anchors && IsValidUrl(baseDomain, a) ==> WithoutFragment(a) in links
    ensures |links| <= |anchors|
  {
    links := {};
    for n := 0 to |anchors|
      invariant links == LinkSet(baseDomain, anchors[..n])
      invariant |links| <= n
    {
      var link := WithoutFragment(anchors[n]);
      assert anchors[..n + 1] == anchors[..n] + [anchors[n]];
      LinkSetSnoc(baseDomain, anchors[..n], anchors[n]);
      if IsValidUrl(baseDomain, link) {
        links := links + {link};
      }
    }
    assert anchors[..|anchors|] == anchors;
    forall a | a in anchors && IsValidUrl(baseDomain, a)
      ensures WithoutFragment(a) in links
    {
      WithoutFragmentKeepsRest(baseDomain, a);
    }
  }
}
