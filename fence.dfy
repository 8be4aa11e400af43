/**
 * `fenceFor(file)` of the code-reference generator: the language tag put after
 * the opening fence of a file's section.
 */
module Fence {
  import opened Text
  import opened Paths

  /** `path.extname(file).slice(1).toLowerCase()`: the extension without its dot. */
  function ExtKey(file: string): (r: string)
    ensures SingleLine(file) ==> SingleLine(r)
  {
    var ext := ExtName(file);
    assert SingleLine(file) ==> SingleLine(DropFirst(ext)) by {
      if SingleLine(file) {
        SuffixSingleLine(file, ext);
        SuffixSingleLine(ext, DropFirst(ext));
      }
    }
    ToLower(DropFirst(ext))
  }

  /**
   * The tag for extension key `ext`: `mjs` and `cjs` become `js`, `yml`
   * becomes `yaml`, no extension gives `text`, and every other extension is
   * its own tag.  The source's lookup also answers for two keys inherited
   * from `Object.prototype`; see `TagForAsWritten`.
   */
  function TagFor(ext: string): (r: string)
    ensures r != []
    ensures SingleLine(ext) ==> SingleLine(r)
  {
    if ext == "mjs" || ext == "cjs" then "js"
    else if ext == "yml" then "yaml"
    else if ext == [] then "text"
    else ext
  }

  /** `fenceFor(file)`. */
  function FenceFor(file: string): (r: string)
    ensures r != []
    ensures SingleLine(file) ==> SingleLine(r)
  {
    TagFor(ExtKey(file))
  }

  /** `String(Object)` and `String(Object.prototype)`. */
  const ObjectFunctionText: string := "function Object() { [native code] }"
  const ObjectPrototypeText: string := "[object Object]"

  /**
   * The tag as the source computes it: `map[ext] ?? (ext || "text")` with `map`
   * a plain object literal, so `map["constructor"]` is the `Object` function
   * and `map["__proto__"]` is `Object.prototype`; interpolated into the
   * section they print as their `String(...)` forms.
   */
  function TagForAsWritten(ext: string): (r: string)
    ensures r != []
    ensures SingleLine(ext) ==> SingleLine(r)
    ensures '`' !in ext ==> '`' !in r
  {
    ObjectTextsPlain();
    if ext == "mjs" || ext == "cjs" then "js"
    else if ext == "yml" then "yaml"
    else if ext == "constructor" then ObjectFunctionText
    else if ext == "__proto__" then ObjectPrototypeText
    else if ext == [] then "text"
    else ext
  }

  /** Neither inherited value prints with a line terminator or a backtick. */
  lemma ObjectTextsPlain()
    ensures SingleLine(ObjectFunctionText) && '`' !in ObjectFunctionText
    ensures SingleLine(ObjectPrototypeText) && '`' !in ObjectPrototypeText
  {
    PlainText("function Object() ");
    PlainText("{ [native code] }");
    SingleLineConcat("function Object() ", "{ [native code] }");
    PlainText(ObjectPrototypeText);
  }

  /** A text of characters from the printable ASCII range other than the backtick. */
  lemma PlainText(s: string)
    requires forall i :: 0 <= i < |s| ==> ' ' <= s[i] <= '_' || 'a' <= s[i] <= '~'
    ensures SingleLine(s) && '`' !in s
  {
  }

  /** `fenceFor(file)` as the source computes it: the tag written after a section's opening fence. */
  function FenceForAsWritten(file: string): (r: string)
    ensures r != []
    ensures SingleLine(file) ==> SingleLine(r)
  {
    TagForAsWritten(ExtKey(file))
  }

  /** The two lookups differ on exactly the two inherited keys. */
  lemma TagForAsWrittenAgrees(ext: string)
    ensures TagForAsWritten(ext) == TagFor(ext) <==> ext != "constructor" && ext != "__proto__"
  {
    if ext == "constructor" {
      assert |TagForAsWritten(ext)| != |TagFor(ext)|;
    } else if ext == "__proto__" {
      assert |TagForAsWritten(ext)| != |TagFor(ext)|;
    }
  }

  /** The key of `dir/stem.ext` is `ext` lowercased. */
  lemma ExtKeyOf(dir: string, stem: string, ext: string)
    requires stem != [] && Sep !in stem && Sep !in ext && '.' !in ext && stem + "." + ext != ".."
    ensures ExtKey(Join(dir, stem + "." + ext)) == ToLower(ext)
  {
    ExtNameOf(dir, stem, ext);
    assert DropFirst("." + ext) == ext;
  }

  /** The keys the examples below use are already lower case, except `YML`. */
  lemma LowerConstructor() ensures ToLower("constructor") == "constructor" { ToLowerUnchanged("constructor"); }
  lemma LowerProto() ensures ToLower("__proto__") == "__proto__" { ToLowerUnchanged("__proto__"); }
  lemma LowerMjs() ensures ToLower("mjs") == "mjs" { ToLowerUnchanged("mjs"); }
  lemma LowerYml() ensures ToLower("YML") == "yml" { }
  lemma LowerCjs() ensures ToLower("cjs") == "cjs" { ToLowerUnchanged("cjs"); }

  lemma KeyOfConstructor(dir: string, stem: string)
    requires stem != [] && Sep !in stem
    ensures ExtKey(Join(dir, stem + "." + "constructor")) == "constructor"
  {
    ExtKeyOf(dir, stem, "constructor");
    LowerConstructor();
  }

  lemma KeyOfProto(dir: string, stem: string)
    requires stem != [] && Sep !in stem
    ensures ExtKey(Join(dir, stem + "." + "__proto__")) == "__proto__"
  {
    ExtKeyOf(dir, stem, "__proto__");
    LowerProto();
  }

  /** Every file whose name ends in `.constructor` gets the `Object` function's text as its tag. */
  lemma FenceForConstructor(dir: string, stem: string)
    requires stem != [] && Sep !in stem
    ensures FenceForAsWritten(Join(dir, stem + "." + "constructor")) == ObjectFunctionText
    ensures FenceFor(Join(dir, stem + "." + "constructor")) == "constructor"
  {
    var f := Join(dir, stem + "." + "constructor");
    KeyOfConstructor(dir, stem);
    TagsOfConstructor(ExtKey(f));
  }

  lemma TagsOfConstructor(k: string)
    requires k == "constructor"
    ensures TagForAsWritten(k) == ObjectFunctionText && TagFor(k) == k
  {
  }

  /** Every file whose name ends in `.__proto__` gets `Object.prototype`'s text as its tag. */
  lemma FenceForProto(dir: string, stem: string)
    requires stem != [] && Sep !in stem
    ensures FenceForAsWritten(Join(dir, stem + "." + "__proto__")) == ObjectPrototypeText
    ensures FenceFor(Join(dir, stem + "." + "__proto__")) == "__proto__"
  {
    var f := Join(dir, stem + "." + "__proto__");
    KeyOfProto(dir, stem);
    TagsOfProto(ExtKey(f));
  }

  lemma TagsOfProto(k: string)
    requires k == "__proto__"
    ensures TagForAsWritten(k) == ObjectPrototypeText && TagFor(k) == k
  {
  }

  /** `.mjs` files are fenced as `js`. */
  lemma FenceForModule(dir: string, stem: string)
    requires stem != [] && Sep !in stem
    ensures FenceFor(Join(dir, stem + ".mjs")) == "js"
  {
    assert stem + ".mjs" == stem + "." + "mjs";
    ExtKeyOf(dir, stem, "mjs");
    LowerMjs();
  }

  /** `.cjs` files are fenced as `js` too. */
  lemma FenceForCommonJs(dir: string, stem: string)
    requires stem != [] && Sep !in stem
    ensures FenceFor(Join(dir, stem + ".cjs")) == "js"
  {
    assert stem + ".cjs" == stem + "." + "cjs";
    ExtKeyOf(dir, stem, "cjs");
    LowerCjs();
  }

  /** Any other extension is its own tag, lowercased. */
  lemma FenceForOther(dir: string, stem: string, ext: string)
    requires stem != [] && Sep !in stem && ext != [] && Sep !in ext && '.' !in ext
    requires ToLower(ext) != "mjs" && ToLower(ext) != "cjs" && ToLower(ext) != "yml"
    ensures FenceFor(Join(dir, stem + "." + ext)) == ToLower(ext)
  {
    assert |stem + "." + ext| >= 3;
    ExtKeyOf(dir, stem, ext);
  }

  /** Extensions are matched case-insensitively: `.YML` files are fenced as `yaml`. */
  lemma FenceForUpperYaml(dir: string, stem: string)
    requires stem != [] && Sep !in stem
    ensures FenceFor(Join(dir, stem + ".YML")) == "yaml"
  {
    assert stem + ".YML" == stem + "." + "YML";
    ExtKeyOf(dir, stem, "YML");
    LowerYml();
  }

  /** A name without a dot, or whose only dot is its first character, is fenced as `text`. */
  lemma FenceForNoExtension(dir: string, name: string)
    requires IsName(name) && forall k :: 1 <= k < |name| ==> name[k] != '.'
    ensures FenceFor(Join(dir, name)) == "text"
  {
    ExtNameJoin(dir, name);
    if '.' in name {
      assert LastIndexOf(name, '.') == 0;
    }
  }

  /** The tag of a path without backticks has none either, in both tables. */
  lemma FenceWithoutBacktick(file: string)
    requires '`' !in file
    ensures '`' !in FenceFor(file) && '`' !in FenceForAsWritten(file)
  {
    KeyWithoutBacktick(file);
    TagWithoutBacktick(ExtKey(file));
  }

  lemma TagWithoutBacktick(ext: string)
    requires '`' !in ext
    ensures '`' !in TagFor(ext)
  {
  }

  lemma KeyWithoutBacktick(file: string)
    requires '`' !in file
    ensures '`' !in ExtKey(file)
  {
    var ext := ExtName(file);
    if ext != [] {
      SuffixWithout(file, ext, '`');
      SuffixWithout(ext, DropFirst(ext), '`');
    }
    LowerWithoutBacktick(DropFirst(ext));
  }

  lemma SuffixWithout(s: string, t: string, c: char)
    requires EndsWith(s, t) && c !in s
    ensures c !in t
  {
    forall i | 0 <= i < |t| ensures t[i] != c {
      assert t[i] == s[|s| - |t|..][i];
    }
  }

  /** Lowercasing turns only capitals into other characters, and those into letters. */
  lemma LowerWithoutBacktick(s: string)
    requires '`' !in s
    ensures '`' !in ToLower(s)
  {
    forall i | 0 <= i < |s| ensures ToLower(s)[i] != '`' {
      assert s[i] != '`';
    }
  }
}
