/**
 * `Assert.notNull` and `Assert.isDirectory`: argument checks that either
 * return normally or throw, and choose the message they throw with.
 */
module Asserts {
  import opened Wrappers
  import opened JavaLang
  import opened Strings

  /** The message `notNull` uses when the caller's message is blank. */
  const DefaultNullMessage: string := "Given Object is null"

  /**
   * `Assert.notNull(message, object)`: passes for a non-null object; for a null
   * one throws a NullPointerException carrying the trimmed message, or the
   * default message when the given one is blank.
   */
  function NotNull<T>(message: Option<string>, obj: Option<T>): (r: Outcome<Exc>)
    ensures r.Pass? <==> obj.Some?
    ensures r.Fail? ==> r.error.NullPointer?
    ensures r.Fail? && IsNotBlank(message) ==> r.error.message == Trim(message.value)
    ensures r.Fail? && IsBlank(message) ==> r.error.message == DefaultNullMessage
  {
    if obj.Some? then Pass
    else if IsNotBlank(message) then Fail(NullPointer(Trim(message.value)))
    else Fail(NullPointer(DefaultNullMessage))
  }

  /** Whatever message the caller gives, `notNull` never throws with a blank one. */
  lemma NotNullMessageNotBlank<T>(message: Option<string>, obj: Option<T>)
    requires obj.None?
    ensures IsNotBlank(Some(NotNull(message, obj).error.message))
  {
    if IsNotBlank(message) {
      var t := Trim(message.value);
      TrimEmptyIff(message.value);
      TrimHead(message.value);
      VisibleCharNotBlank(t, 0);
    } else {
      VisibleCharNotBlank(DefaultNullMessage, 0);
    }
  }

  /**
   * `Assert.isDirectory(file)`: passes for a directory; otherwise throws an
   * IllegalArgumentException naming the canonical path, or "null" for a null
   * file. `isDir` is the file system's answer to `isDirectory()` and
   * `canonical` its canonical form of a path.
   */
  function IsDirectory(file: Option<string>, isDir: string -> bool, canonical: string -> string): (r: Outcome<Exc>)
    ensures r.Pass? <==> file.Some? && isDir(file.value)
    ensures r.Fail? ==> r.error.IllegalArgument?
    ensures r.Fail? && file.None? ==> r.error.message == "No directory: null"
    ensures r.Fail? && file.Some? ==> r.error.message == "No directory: " + canonical(file.value)
  {
    if file.None? || !isDir(file.value) then
      Fail(IllegalArgument("No directory: " + if file.None? then "null" else canonical(file.value)))
    else Pass
  }
}
