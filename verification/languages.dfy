/** The language tables of the tab widget: the label shown on a tab and the
    Devicon class of its icon, both looked up case-insensitively from the
    fenced block's language tag. */
module Languages {
  import opened Text

  /** The lower-case form of one character, as far as it can matter for a
      table lookup: `A`-`Z` and U+212A KELVIN SIGN are the only characters
      whose lower case is plain ASCII, and every key of the tables is. */
  function LowerChar(c: char): char {
    if 'A' <= c <= 'Z' then (c as int + 32) as char
    else if c == '\U{212A}' then 'k'
    else c
  }

  /** `str::to_lowercase`, see `LowerChar`. */
  function ToLower(s: string): (r: string)
    ensures |r| == |s|
    ensures forall i :: 0 <= i < |r| ==> !('A' <= r[i] <= 'Z')
  {
    seq(|s|, i requires 0 <= i < |s| => LowerChar(s[i]))
  }

  /** Lower-casing twice is lower-casing once. */
  lemma ToLowerIdempotent(s: string)
    ensures ToLower(ToLower(s)) == ToLower(s)
  {
    var t := ToLower(s);
    assert forall i :: 0 <= i < |t| ==> LowerChar(t[i]) == t[i];
  }

  /** The display-name table, keyed by the lower-cased tag. */
  function DisplayNameEntry(key: string): (r: Option<string>)
    ensures r.Some? ==> r.value != []
  {
    match key
    case "apache" => Some("Apache")
    case "armasm" => Some("ARM Assembly")
    case "bash" => Some("Bash")
    case "c" => Some("C")
    case "coffeescript" => Some("CoffeeScript")
    case "cpp" => Some("C++")
    case "csharp" | "cs" => Some("C#")
    case "css" => Some("CSS")
    case "d" => Some("D")
    case "diff" => Some("Diff")
    case "go" => Some("Go")
    case "handlebars" | "hbs" => Some("Handlebars")
    case "haskell" | "hs" => Some("Haskell")
    case "http" => Some("HTTP")
    case "ini" => Some("INI")
    case "java" => Some("Java")
    case "javascript" | "js" => Some("JavaScript")
    case "json" => Some("JSON")
    case "julia" => Some("Julia")
    case "kotlin" | "kt" => Some("Kotlin")
    case "less" => Some("Less")
    case "lua" => Some("Lua")
    case "makefile" | "make" => Some("Makefile")
    case "markdown" | "md" => Some("Markdown")
    case "nginx" => Some("Nginx")
    case "nim" => Some("Nim")
    case "nix" => Some("Nix")
    case "objectivec" | "objc" => Some("Objective-C")
    case "perl" | "pl" => Some("Perl")
    case "php" => Some("PHP")
    case "plaintext" | "text" | "txt" => Some("Plain Text")
    case "properties" | "props" => Some("Properties")
    case "python" | "py" => Some("Python")
    case "r" => Some("R")
    case "ruby" | "rb" => Some("Ruby")
    case "rust" | "rs" => Some("Rust")
    case "scala" => Some("Scala")
    case "scss" => Some("SCSS")
    case "shell" | "sh" => Some("Shell")
    case "sql" => Some("SQL")
    case "swift" => Some("Swift")
    case "typescript" | "ts" => Some("TypeScript")
    case "x86asm" => Some("x86 Assembly")
    case "xml" => Some("XML")
    case "yaml" | "yml" => Some("YAML")
    case _ => None
  }

  /** The label of a tab: the table's name for a known tag, otherwise the tag
      itself, exactly as written. */
  function DisplayName(lang: string): (r: string)
    ensures lang != [] ==> r != []
    ensures DisplayNameEntry(ToLower(lang)).None? ==> r == lang
  {
    match DisplayNameEntry(ToLower(lang))
    case Some(name) => name
    case None => lang
  }

  const GenericIcon: string := "devicon-devicon-plain"

  /** The icon table, keyed by the lower-cased tag, with the generic icon as
      its fallback. */
  function IconClassOf(key: string): (r: string)
    ensures |r| > |"devicon-"| && "devicon-" <= r
  {
    match key
    case "apache" => "devicon-apache-plain"
    case "armasm" | "x86asm" => GenericIcon
    case "bash" | "shell" | "sh" => "devicon-bash-plain"
    case "c" => "devicon-c-plain"
    case "coffeescript" => "devicon-coffeescript-plain"
    case "cpp" => "devicon-cplusplus-plain"
    case "csharp" | "cs" => "devicon-csharp-plain"
    case "css" => "devicon-css3-plain"
    case "d" => "devicon-d3js-plain"
    case "diff" => "devicon-git-plain"
    case "go" => "devicon-go-plain"
    case "handlebars" | "hbs" => "devicon-handlebars-plain"
    case "haskell" | "hs" => "devicon-haskell-plain"
    case "html" => "devicon-html5-plain"
    case "http" => "devicon-chrome-plain"
    case "ini" | "properties" | "props" => GenericIcon
    case "java" => "devicon-java-plain"
    case "javascript" | "js" => "devicon-javascript-plain"
    case "json" => "devicon-javascript-plain"
    case "julia" => "devicon-julia-plain"
    case "kotlin" | "kt" => "devicon-kotlin-plain"
    case "less" => "devicon-less-plain-wordmark"
    case "lua" => "devicon-lua-plain"
    case "makefile" | "make" => "devicon-linux-plain"
    case "markdown" | "md" => "devicon-markdown-plain"
    case "nginx" => "devicon-nginx-plain"
    case "nim" => "devicon-nim-plain"
    case "nix" => "devicon-nixos-plain"
    case "objectivec" | "objc" => "devicon-apple-plain"
    case "perl" | "pl" => "devicon-perl-plain"
    case "php" => "devicon-php-plain"
    case "plaintext" | "text" | "txt" => GenericIcon
    case "python" | "py" => "devicon-python-plain"
    case "r" => "devicon-r-plain"
    case "ruby" | "rb" => "devicon-ruby-plain"
    case "rust" | "rs" => "devicon-rust-plain"
    case "scala" => "devicon-scala-plain"
    case "scss" => "devicon-sass-plain"
    case "sql" => "devicon-mysql-plain"
    case "swift" => "devicon-swift-plain"
    case "typescript" | "ts" => "devicon-typescript-plain"
    case "xml" => "devicon-html5-plain"
    case "yaml" | "yml" => GenericIcon
    case _ => GenericIcon
  }

  /** The Devicon class for a tag, looked up case-insensitively. */
  function IconClass(lang: string): (r: string)
    ensures |r| > |"devicon-"| && "devicon-" <= r
  {
    IconClassOf(ToLower(lang))
  }

  const IconOpen: string := "<i class=\"langtabs-icon "
  const IconClose: string := "\"></i>"

  /** The icon markup placed in front of a tab's label: always an `<i>`
      element of class `langtabs-icon` around a non-empty Devicon class. */
  function IconHtml(lang: string): (r: string)
    ensures IconOpen <= r && |r| > |IconOpen| + |IconClose|
    ensures r[|r| - |IconClose|..] == IconClose
  {
    IconOpen + IconClass(lang) + IconClose
  }

  /** Both lookups are case-insensitive: tags that lower-case alike get the
      same icon, and the same label whenever the table knows them. */
  lemma LookupsIgnoreCase(a: string, b: string)
    requires ToLower(a) == ToLower(b)
    ensures IconClass(a) == IconClass(b) && IconHtml(a) == IconHtml(b)
    ensures DisplayNameEntry(ToLower(a)).Some? ==> DisplayName(a) == DisplayName(b)
  {
  }

  /** Looking up a tag or its lower-cased form gives the same icon, and the
      same label for a known tag. */
  lemma LowerCasedTagLooksUpAlike(lang: string)
    ensures IconClass(ToLower(lang)) == IconClass(lang)
    ensures DisplayNameEntry(ToLower(lang)).Some? ==> DisplayName(ToLower(lang)) == DisplayName(lang)
  {
    ToLowerIdempotent(lang);
  }

  /** No name in the display-name table is longer than twelve characters. */
  lemma NamesShort(key: string)
    ensures DisplayNameEntry(key).Some? ==> |DisplayNameEntry(key).value| <= 12
  {
  }

  /** No class in the icon table is longer than 27 characters. */
  lemma IconsShort(key: string)
    ensures |IconClassOf(key)| <= 27
  {
  }

  lemma PythonAliases()
    ensures DisplayName("PyThOn") == "Python" == DisplayName("py")
    ensures IconClass("PY") == IconClass("python") == "devicon-python-plain"
  {
    assert ToLower("PyThOn") == "python";
    assert ToLower("py") == "py";
    assert ToLower("PY") == "py";
    assert ToLower("python") == "python";
  }

  /** A tag the tables do not know keeps its own spelling as its label and
      gets the generic icon. */
  lemma UnknownTagFallsBack(lang: string)
    requires DisplayNameEntry(ToLower(lang)).None? && ToLower(lang) != "html"
    ensures DisplayName(lang) == lang && IconClass(lang) == GenericIcon
  {
  }
}
