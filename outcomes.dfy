/** Failure-carrying values shared by the pipeline's stages, and the facts
    about slicing and joining sequences their proofs rely on, each proved
    apart from any other definitions. */
module Outcomes {

  datatype Option<T> = None | Some(value: T)

  /** The faults that abort a run of the extractor. Malformed lines and missing
      archives are not faults: they are skipped where they occur. */
  datatype Fault =
    | RecordNotAnObject          // a line decodes to JSON that is not an object, so `.get` raises
    | NameWithoutNumber(name: string)  // an archive name has no digit, so its sort key raises
    | SchemaMismatch             // the checkpoint tables do not share one column list

  datatype Result<T> = Ok(value: T) | Err(fault: Fault)

  lemma AppendAssoc<T>(x: seq<T>, y: seq<T>, z: seq<T>)
    ensures (x + y) + z == x + (y + z)
  {
  }

  /** A sequence is its prefix followed by the rest. */
  lemma TakeDrop<T>(s: seq<T>, n: nat)
    requires n <= |s|
    ensures s[..n] + s[n..] == s
  {
  }

  lemma AppendDrop<T>(s: seq<T>, t: seq<T>, n: nat)
    requires n <= |s|
    ensures (s + t)[n..] == s[n..] + t
  {
  }

  lemma AppendSlice<T>(s: seq<T>, t: seq<T>, a: nat, b: nat)
    requires a <= b <= |s|
    ensures (s + t)[a..b] == s[a..b]
  {
  }

  /** A prefix followed by the next slice is the longer prefix. */
  lemma TakeSlice<T>(s: seq<T>, a: nat, b: nat)
    requires a <= b <= |s|
    ensures s[..a] + s[a..b] == s[..b]
  {
  }
}
