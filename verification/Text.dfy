/** Small notions that several modules on text and bytes share. */
module Text {

  datatype Option<T> = None | Some(value: T)

  type byte = b: int | 0 <= b < 0x100

  const VERTICAL_TAB := 11 as char
  const FORM_FEED := 12 as char

  /** C strings hold no NUL before their end. */
  ghost predicate NulFree(s: string) {
    '\0' !in s
  }

  lemma Regroup<T>(a: seq<T>, b: seq<T>, c: seq<T>)
    ensures (a + b) + c == a + (b + c)
  {
  }
}
