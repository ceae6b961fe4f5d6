/** The namespace table of the vendored `inkex` module and `addNS`, which turns a
    local tag or attribute name into the `{uri}local` form used by the XML library. */
module Inkex {
  import opened Wrappers

  /** Prefix to namespace URI, as in `inkex.NSS`. */
  const NSS: map<string, string> := map[
    "sodipodi" := "http://sodipodi.sourceforge.net/DTD/sodipodi-0.dtd",
    "cc" := "http://creativecommons.org/ns#",
    "ccOLD" := "http://web.resource.org/cc/",
    "svg" := "http://www.w3.org/2000/svg",
    "dc" := "http://purl.org/dc/elements/1.1/",
    "rdf" := "http://www.w3.org/1999/02/22-rdf-syntax-ns#",
    "inkscape" := "http://www.inkscape.org/namespaces/inkscape",
    "xlink" := "http://www.w3.org/1999/xlink",
    "xml" := "http://www.w3.org/XML/1998/namespace"
  ]

  /** A tag is already qualified when it starts with `{`. */
  predicate Qualified(tag: string) {
    |tag| > 0 && tag[0] == '{'
  }

  /** The guard of `addNS`: a known, non-empty prefix and a non-empty, unqualified tag. */
  predicate Qualifies(tag: string, ns: Option<string>) {
    ns.Some? && |ns.value| > 0 && ns.value in NSS && |tag| > 0 && !Qualified(tag)
  }

  /** `addNS(tag, ns)`: prefix `tag` with `{uri}` for the namespace named `ns`, or
      leave it as it is when the guard fails. */
  function AddNS(tag: string, ns: Option<string>): (r: string)
    ensures Qualifies(tag, ns) ==> r == "{" + NSS[ns.value] + "}" + tag
    ensures r == tag <==> !Qualifies(tag, ns)
    ensures |r| >= |tag| && r[|r| - |tag|..] == tag
    ensures |tag| > 0 ==> Qualified(r) || r == tag
  {
    if Qualifies(tag, ns) then "{" + NSS[ns.value] + "}" + tag else tag
  }

  /** Qualifying twice is qualifying once: a qualified result starts with `{`. */
  lemma AddNSIdempotent(tag: string, ns: Option<string>)
    ensures AddNS(AddNS(tag, ns), ns) == AddNS(tag, ns)
  {
  }

  /** Every tag that `addNS` changes is turned into a qualified one, which `addNS` leaves alone. */
  lemma AddNSQualifies(tag: string, ns: Option<string>)
    requires Qualifies(tag, ns)
    ensures Qualified(AddNS(tag, ns)) && !Qualifies(AddNS(tag, ns), ns)
  {
  }
}
