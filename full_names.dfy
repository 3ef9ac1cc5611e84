/** The front end's rule for the full name of a node, written out in the
    nodes page, the graph view and the history panel alike. */
module FullNames {

  /** `namespace === '/' ? name : `${namespace}/${name}``. */
  function FullNodeName(namespace: string, name: string): string
  {
    if namespace == "/" then name else namespace + "/" + name
  }

  /** Outside the root namespace the full name always holds a slash. */
  lemma FullNameOutsideRootHasSlash(namespace: string, name: string)
    requires namespace != "/"
    ensures '/' in FullNodeName(namespace, name)
  {
    assert FullNodeName(namespace, name)[|namespace|] == '/';
  }
}
