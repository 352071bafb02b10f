/** The observable holder every repository operation returns. */
module LiveData {

  /**
   * `MutableLiveData<T>`: the values posted to it, in posting order. The
   * coalescing of `postValue` on the main thread is not modelled.
   */
  class MutableLiveData<T> {
    var posted: seq<T>

    constructor ()
      ensures posted == []
    {
      posted := [];
    }

    method PostValue(value: T)
      modifies this
      ensures posted == old(posted) + [value]
    {
      posted := posted + [value];
    }
  }
}
