/** The `Stack` class: a Python list used last-in-first-out. */
module Stacks {
  import opened Results

  /** The top of the stack is the LAST element of `items` (`list.append` / `list.pop(-1)`). */
  datatype Stack<T> = Stack(items: seq<T>)

  /** `list.pop` on an empty list raises `IndexError`. */
  datatype StackError = IndexError

  /** A freshly constructed stack holds nothing. */
  function Empty<T>(): (r: Stack<T>)
    ensures GetData(r) == Failure(IndexError)
  {
    Stack([])
  }

  /** `add`: push `v`; popping right after gives `v` back and the stack as it was. */
  function Add<T>(s: Stack<T>, v: T): (r: Stack<T>)
    ensures |r.items| == |s.items| + 1
    ensures GetData(r) == Success((v, s))
  {
    Stack(s.items + [v])
  }

  /** `get_data`: pop the top. Fails exactly on the empty stack; on success,
      pushing the popped value back onto the rest rebuilds the original stack. */
  function GetData<T>(s: Stack<T>): (r: Result<(T, Stack<T>), StackError>)
    ensures r.Failure? <==> |s.items| == 0
    ensures r.Failure? ==> r.error == IndexError
    ensures r.Success? ==> |r.value.1.items| + 1 == |s.items|
    ensures r.Success? ==> Stack(r.value.1.items + [r.value.0]) == s
  {
    if |s.items| == 0 then Failure(IndexError)
    else Success((s.items[|s.items| - 1], Stack(s.items[..|s.items| - 1])))
  }
}
