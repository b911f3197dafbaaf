/**
 * File naming: recognising the `.heic` extension (case-insensitively, as
 * `name.toLowerCase().endsWith(".heic")` does), stripping it, and choosing the
 * name under which a JPEG or PDF result is downloaded.
 */
module FileNaming {
  import opened ConverterTypes

  /** The extension the converter accepts, compared after lower-casing. */
  const HeicExtension: string := ".heic"

  /** Lower-casing of one character; only the ASCII letters are mapped. */
  function LowerChar(c: char): (d: char)
    ensures 'A' <= c <= 'Z' ==> 'a' <= d <= 'z' && d as int - c as int == 32
    ensures !('A' <= c <= 'Z') ==> d == c
  {
    if 'A' <= c <= 'Z' then (c as int + 32) as char else c
  }

  /** String lower-casing, character by character. */
  function Lower(s: string): (r: string)
    ensures |r| == |s|
    ensures forall i :: 0 <= i < |s| ==> r[i] == LowerChar(s[i])
  {
    if s == [] then [] else [LowerChar(s[0])] + Lower(s[1..])
  }

  /** JavaScript's `s.endsWith(suffix)`. */
  predicate EndsWith(s: string, suffix: string) {
    |suffix| <= |s| && s[|s| - |suffix|..] == suffix
  }

  /** The test at the head of `removeExtension` and in `onDrop`. */
  predicate HasHeicExtension(name: string) {
    EndsWith(Lower(name), HeicExtension)
  }

  /** Lower-casing commutes with taking a suffix. */
  lemma LowerSuffix(s: string, k: nat)
    requires k <= |s|
    ensures Lower(s[k..]) == Lower(s)[k..]
  {
  }

  /** `removeExtension`: the name without its last five characters when it ends
      in `.heic` in any case, otherwise the name unchanged. The two parts put
      back together give the original name. */
  function RemoveExtension(name: string): (base: string)
    ensures HasHeicExtension(name) ==>
      |base| == |name| - 5 && base + name[|base|..] == name && Lower(name[|base|..]) == HeicExtension
    ensures !HasHeicExtension(name) ==> base == name
  {
    if HasHeicExtension(name) then
      LowerSuffix(name, |name| - 5);
      name[..|name| - 5]
    else
      name
  }

  /** The extension is recognised exactly for the 32 spellings of `.heic`
      that differ only in the case of its four letters. */
  lemma HeicSpellings(name: string)
    ensures HasHeicExtension(name) <==>
      && |name| >= 5
      && name[|name| - 5] == '.'
      && name[|name| - 4] in "hH"
      && name[|name| - 3] in "eE"
      && name[|name| - 2] in "iI"
      && name[|name| - 1] in "cC"
  {
  }

  /** Round trip from the other side: appending any spelling of `.heic` to a
      base name and removing the extension gives back exactly that base. */
  lemma StripsAppendedExtension(base: string, ext: string)
    requires Lower(ext) == HeicExtension
    ensures RemoveExtension(base + ext) == base
  {
  }

  /** Only one extension is stripped: a name ending in `.heic.heic` keeps one. */
  lemma StripsOnce(base: string)
    ensures RemoveExtension(base + ".heic.heic") == base + ".heic"
  {
    assert base + ".heic.heic" == (base + ".heic") + ".heic";
    assert Lower(".heic") == HeicExtension by {
      assert Lower(".heic")[0] == '.';
    }
    StripsAppendedExtension(base + ".heic", ".heic");
  }

  /** The extension appended to a result, chosen by the output format. */
  function ExtensionFor(t: OutputType): (ext: string)
    ensures |ext| >= 4 && ext[0] == '.'
  {
    match t
    case Jpeg => ".jpeg"
    case Pdf => ".pdf"
  }

  /** The download name `removeExtension(file.name) + ".jpeg"` or `+ ".pdf"`.
      It ends in the chosen extension, keeps the stripped base in front of it,
      and never itself carries a `.heic` extension. */
  function OutputName(name: string, t: OutputType): (out: string)
    ensures EndsWith(out, ExtensionFor(t))
    ensures out[..|out| - |ExtensionFor(t)|] == RemoveExtension(name)
    ensures !HasHeicExtension(out)
  {
    var ext := ExtensionFor(t);
    var out := RemoveExtension(name) + ext;
    assert out[|out| - |ext|..] == ext;
    assert out[|out| - 1] == ext[|ext| - 1] == (if t == Jpeg then 'g' else 'f');
    assert Lower(out)[|out| - 1] != HeicExtension[4];
    out
  }

  /** Feeding a produced file name back through `removeExtension` leaves it as is. */
  lemma OutputNameIsStable(name: string, t: OutputType)
    ensures RemoveExtension(OutputName(name, t)) == OutputName(name, t)
  {
  }
}
