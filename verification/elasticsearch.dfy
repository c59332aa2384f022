/**
 * The part of an Elasticsearch cluster that publication reads and writes. Every request is atomic:
 * it returns the next cluster, or None when the cluster refuses it and stays as it was.
 */
module Elasticsearch {
  import opened Wrappers
  import opened Naming

  datatype Document = Document(id: string, body: string)

  /** What an index stores, and what searches see of it since its last refresh. */
  datatype IndexState = IndexState(stored: map<string, string>, searchable: map<string, string>)

  datatype Cluster = Cluster(indices: map<string, IndexState>, aliases: map<string, set<string>>) {
    /** The indices behind an alias. */
    function Resolve(aliasName: string): set<string> {
      if aliasName in aliases then aliases[aliasName] else {}
    }

    /** No index may bear the name of another index or of an alias, nor a wildcard in its name. */
    function CreateIndex(name: string): Option<Cluster> {
      if name in indices || name in aliases || '*' in name then None
      else Some(this.(indices := indices[name := IndexState(map[], map[])]))
    }

    function IndexDocument(name: string, doc: Document): Option<Cluster> {
      if name !in indices then None else
        var was := indices[name];
        Some(this.(indices := indices[name := was.(stored := was.stored[doc.id := doc.body])]))
    }

    function Refresh(name: string): Option<Cluster> {
      if name !in indices then None else
        var was := indices[name];
        Some(this.(indices := indices[name := was.(searchable := was.stored)]))
    }

    /** One request that adds an index to an alias and removes others from it. */
    function UpdateAlias(aliasName: string, add: string, remove: set<string>): Option<Cluster> {
      if add !in indices || !(remove <= indices.Keys) then None
      else Some(this.(aliases := aliases[aliasName := (Resolve(aliasName) + {add}) - remove]))
    }

    /** Deleting an index also takes it out of every alias. */
    function DeleteIndex(name: string): Option<Cluster> {
      if name !in indices then None
      else Some(Cluster(indices - {name}, map a | a in aliases :: aliases[a] - {name}))
    }

    /** The indices that the pattern of a pair finds. */
    function FindByPattern(pair: Pair): set<string> {
      set name | name in indices && Matches(pair, name)
    }
  }
}
