/** The permission synonym table of the access-sync script (normalizePermission). */
module Permissions {
  import opened Wrappers

  /** The five access levels the hosting API accepts for a team on a repository. */
  datatype Permission = Pull | Triage | Push | Maintain | Admin

  /** What a config document holds under its `permission` key. */
  datatype PermissionInput =
    | Text(s: string)         // a string
    | Missing                 // no such key: the value is `undefined`
    | NonText(shown: string)  // null, a number, a list, ...: no `toLowerCase` method; `shown` is its template-string rendering

  /** The API's own name for each level. */
  function Canonical(p: Permission): string
  {
    match p
    case Pull => "pull"
    case Triage => "triage"
    case Push => "push"
    case Maintain => "maintain"
    case Admin => "admin"
  }

  /** Every lower-case spelling the table accepts for a level: an independent statement of the table. */
  function Synonyms(p: Permission): set<string>
  {
    match p
    case Pull => {"read", "pull"}
    case Push => {"write", "push"}
    case _ => {Canonical(p)}
  }

  /** ASCII case folding (String.prototype.toLowerCase restricted to ASCII). */
  function LowerChar(c: char): char
  {
    if 'A' <= c <= 'Z' then (c as int + 32) as char else c
  }

  function Lower(s: string): (r: string)
    ensures |r| == |s|
    ensures forall i :: 0 <= i < |r| ==> !('A' <= r[i] <= 'Z')
    ensures forall i :: 0 <= i < |r| ==> r[i] == s[i] || ('A' <= s[i] <= 'Z' && r[i] as int == s[i] as int + 32)
  {
    seq(|s|, i requires 0 <= i < |s| => LowerChar(s[i]))
  }

  /** The property name `input?.toLowerCase?.()` produces: the lowered string, or, for a value without
      `toLowerCase`, `undefined`, which an object index turns into the key "undefined". */
  function LookupKey(input: PermissionInput): (key: string)
    ensures forall i :: 0 <= i < |key| ==> !('A' <= key[i] <= 'Z')
    ensures input.Text? ==> key == Lower(input.s) && |key| == |input.s|
    ensures !input.Text? ==> key == "undefined"
  {
    match input
    case Text(s) => Lower(s)
    case _ => "undefined"
  }

  /** The seven own entries of the lookup table. */
  function TableEntry(key: string): (r: Option<Permission>)
    ensures r.Some? ==> key in Synonyms(r.value)
    ensures r.None? ==> forall p: Permission :: key !in Synonyms(p)
  {
    match key
    case "read" => Some(Pull)
    case "pull" => Some(Pull)
    case "triage" => Some(Triage)
    case "write" => Some(Push)
    case "push" => Some(Push)
    case "maintain" => Some(Maintain)
    case "admin" => Some(Admin)
    case _ => None
  }

  /** How `${input}` renders the input in the error message. */
  function Shown(input: PermissionInput): string
  {
    match input
    case Text(s) => s
    case Missing => "undefined"
    case NonText(t) => t
  }

  /** The accepted levels as the error message lists them. */
  const ValidLevels := "pull | triage | push | maintain | admin"

  /** The message quotes the input verbatim after `Invalid permission "` and ends with the list of levels. */
  function InvalidPermissionMessage(input: PermissionInput): (m: string)
    ensures |m| == 20 + |Shown(input)| + |ValidLevels| + 15
    ensures m[..20] == "Invalid permission \""
    ensures m[20..20 + |Shown(input)|] == Shown(input)
    ensures m[|m| - |ValidLevels|..] == ValidLevels
  {
    "Invalid permission \"" + Shown(input) + "\". Use one of: " + ValidLevels
  }

  /** The list in the message names exactly the API names of the five levels, in the order of the
      GithubPermission type. */
  lemma ValidLevelsAreCanonical()
    ensures ValidLevels == Canonical(Pull) + " | " + Canonical(Triage) + " | " + Canonical(Push) + " | "
                           + Canonical(Maintain) + " | " + Canonical(Admin)
  {
  }

  /** normalizePermission, consulting only the table's own entries (see InheritedKeyPassesGuard for the
      source as written). A success is one of the five levels and the key is one of its synonyms;
      a failure carries the fixed message. */
  function NormalizePermission(input: PermissionInput): (r: Result<Permission>)
    ensures r.Ok? ==> LookupKey(input) in Synonyms(r.value)
    ensures r.Err? ==> r.message == InvalidPermissionMessage(input)
    ensures r.Err? ==> forall p: Permission :: LookupKey(input) !in Synonyms(p)
  {
    match TableEntry(LookupKey(input))
    case Some(p) => Ok(p)
    case None => Err(InvalidPermissionMessage(input))
  }

  /** The table accepts exactly the synonyms of each level, in both directions. */
  lemma NormalizeMatchesSynonyms(input: PermissionInput, p: Permission)
    ensures NormalizePermission(input) == Ok(p) <==> LookupKey(input) in Synonyms(p)
  {
    if LookupKey(input) in Synonyms(p) {
      match p
      case Pull =>
      case Triage =>
      case Push =>
      case Maintain =>
      case Admin =>
    }
  }

  lemma NormalizeTable()
    ensures NormalizePermission(Text("read")) == Ok(Pull)
    ensures NormalizePermission(Text("pull")) == Ok(Pull)
    ensures NormalizePermission(Text("write")) == Ok(Push)
    ensures NormalizePermission(Text("push")) == Ok(Push)
    ensures NormalizePermission(Text("triage")) == Ok(Triage)
    ensures NormalizePermission(Text("maintain")) == Ok(Maintain)
    ensures NormalizePermission(Text("admin")) == Ok(Admin)
    ensures NormalizePermission(Text("WRITE")) == Ok(Push)
    ensures NormalizePermission(Missing) == Err(InvalidPermissionMessage(Missing))
    ensures Shown(Missing) == "undefined"
  {
    assert Lower("read") == "read" && Lower("pull") == "pull" && Lower("write") == "write";
    assert Lower("push") == "push" && Lower("triage") == "triage";
    assert Lower("maintain") == "maintain" && Lower("admin") == "admin";
    assert Lower("WRITE") == "write";
    assert TableEntry("undefined") == None;
  }

  lemma LowerIdempotent(s: string)
    ensures Lower(Lower(s)) == Lower(s)
  {
  }

  /** Lookup ignores case: two spellings that fold to the same string succeed or fail together and
      succeed with the same level; in particular every string normalises as its lower-case form does. */
  lemma NormalizeIgnoresCase(s: string, t: string)
    requires Lower(s) == Lower(t)
    ensures NormalizePermission(Text(s)).Ok? == NormalizePermission(Text(t)).Ok?
    ensures NormalizePermission(Text(s)).Ok? ==> NormalizePermission(Text(s)).value == NormalizePermission(Text(t)).value
    ensures NormalizePermission(Text(s)).Ok? ==> NormalizePermission(Text(Lower(s))) == NormalizePermission(Text(s))
  {
    LowerIdempotent(s);
  }

  /** Normalising is idempotent: a level's API name is itself a key that maps back to that level. */
  lemma NormalizeIdempotent(input: PermissionInput)
    ensures NormalizePermission(input).Ok? ==>
      NormalizePermission(Text(Canonical(NormalizePermission(input).value))) == NormalizePermission(input)
  {
    if NormalizePermission(input).Ok? {
      match NormalizePermission(input).value
      case Pull => assert Lower("pull") == "pull";
      case Triage => assert Lower("triage") == "triage";
      case Push => assert Lower("push") == "push";
      case Maintain => assert Lower("maintain") == "maintain";
      case Admin => assert Lower("admin") == "admin";
    }
  }

  // ---------------------------------------------------------------------------
  // The lookup as written: `map` is an object literal, so indexing it also finds
  // the members it inherits from Object.prototype. After lower-casing, exactly two
  // of them are reachable: "constructor" (the Object function) and "__proto__"
  // (Object.prototype itself). Both are truthy, so the `!normalized` guard lets
  // them through and the function returns something that is not a permission.

  /** What indexing the table object yields for a property name. */
  datatype TableValue = Undefined | Own(level: Permission) | Inherited(name: string)

  function TableProperty(key: string): (v: TableValue)
    ensures v.Own? ==> key in Synonyms(v.level)
    ensures v.Inherited? <==> key == "constructor" || key == "__proto__"
    ensures v.Undefined? <==> (forall p: Permission :: key !in Synonyms(p)) && key != "constructor" && key != "__proto__"
  {
    match TableEntry(key)
    case Some(p) => Own(p)
    case None => if key == "constructor" || key == "__proto__" then Inherited(key) else Undefined
  }

  /** normalizePermission as written: it throws only when the lookup yields `undefined`. */
  function NormalizePermissionAsWritten(input: PermissionInput): (r: Result<TableValue>)
    ensures r.Ok? <==> TableProperty(LookupKey(input)) != Undefined
    ensures r.Err? ==> r.message == InvalidPermissionMessage(input)
  {
    var v := TableProperty(LookupKey(input));
    if v.Undefined? then Err(InvalidPermissionMessage(input)) else Ok(v)
  }

  /** The guard lets a config whose permission is "constructor" (in any case) through with a value
      that is none of the five levels; the corrected lookup rejects it. */
  lemma InheritedKeyPassesGuard()
    ensures NormalizePermissionAsWritten(Text("Constructor")) == Ok(Inherited("constructor"))
    ensures NormalizePermissionAsWritten(Text("__proto__")) == Ok(Inherited("__proto__"))
    ensures NormalizePermission(Text("Constructor")).Err?
  {
    assert Lower("Constructor") == "constructor";
    assert Lower("__proto__") == "__proto__";
  }

  /** The corrected lookup agrees with the source on every input except the two inherited names. */
  lemma AsWrittenDiffersOnlyOnInherited(input: PermissionInput)
    ensures NormalizePermission(input).Ok? ==>
      NormalizePermissionAsWritten(input) == Ok(Own(NormalizePermission(input).value))
    ensures NormalizePermissionAsWritten(input).Ok? && NormalizePermission(input).Err? <==>
      LookupKey(input) in {"constructor", "__proto__"}
    ensures NormalizePermissionAsWritten(input).Err? ==> NormalizePermissionAsWritten(input).message == NormalizePermission(input).message
  {
  }
}
