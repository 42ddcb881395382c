/** The shared vector of common/utilities/TSVector.h, which carries the entities between threads. Each method holds
    the vector's mutex from start to end. */
module TSVectors {
  import opened Vectors

  class TSVector<T> {
    const blank: T      // the value-initialised element
    var vec: seq<T>

    constructor (blank: T)
      ensures vec == [] && this.blank == blank
    {
      this.blank := blank;
      vec := [];
    }

    /** operator=(const std::vector<T>&): resized if the length differs, then overwritten element by element. */
    method Assign(newVec: seq<T>)
      modifies this
      ensures vec == newVec
    {
      if |newVec| != |vec| {
        vec := Resized(vec, |newVec|, blank);
      }
      for i := 0 to |newVec|
        invariant |vec| == |newVec|
        invariant vec[..i] == newVec[..i]
      {
        vec := vec[i := newVec[i]];
      }
    }

    /** get_vector: a copy of the elements, taken one by one. */
    method GetVector() returns (retVec: seq<T>)
      ensures retVec == vec
    {
      retVec := [];
      for i := 0 to |vec|
        invariant retVec == vec[..i]
      {
        retVec := retVec + [vec[i]];
      }
    }

    method PushBack(item: T)
      modifies this
      ensures vec == old(vec) + [item]
    {
      vec := vec + [item];
    }

    /** Both overloads of resize; the one-argument form passes the value-initialised element. */
    method Resize(size: nat, item: T)
      modifies this
      ensures |vec| == size
      ensures forall k :: 0 <= k < size ==> vec[k] == if k < |old(vec)| then old(vec)[k] else item
    {
      vec := Resized(vec, size, item);
    }
  }
}
