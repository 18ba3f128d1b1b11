/**
 The form validators of the landing page script (`static/script/index.js`):
 the password-strength scorer, the e-mail, username and confirmation checks
 of the registration form, the archive size and type check of the upload
 form, and the choice of login field. Strings are sequences of characters;
 JavaScript counts UTF-16 code units instead, which differs only for
 characters outside the Basic Multilingual Plane.
 */
module IndexScript {
  import opened Wrappers
  import opened Text
  import opened UserSchema

  // ---------------------------------------------------------------------
  // Password strength

  datatype Criterion = HasUpper | HasLower | HasDigit | HasSpecial | LongEnough

  const AllCriteria: set<Criterion> := {HasUpper, HasLower, HasDigit, HasSpecial, LongEnough}

  /** The characters of `/[!@#$%^&*(),.?":{}|<>]/`. */
  const SpecialChars: set<char> :=
    {'!', '@', '#', '$', '%', '^', '&', '*', '(', ')', ',', '.', '?', '"', ':', '{', '}', '|', '<', '>'}

  predicate IsUpper(c: char) { 'A' <= c <= 'Z' }
  predicate IsLower(c: char) { 'a' <= c <= 'z' }
  predicate IsDigit(c: char) { '0' <= c <= '9' }
  predicate IsSpecial(c: char) { c in SpecialChars }

  /** Whether the password meets one criterion; the first four are `/[...]/.test(password)`. */
  predicate Satisfies(p: string, c: Criterion) {
    match c
    case HasUpper => exists i :: 0 <= i < |p| && IsUpper(p[i])
    case HasLower => exists i :: 0 <= i < |p| && IsLower(p[i])
    case HasDigit => exists i :: 0 <= i < |p| && IsDigit(p[i])
    case HasSpecial => exists i :: 0 <= i < |p| && IsSpecial(p[i])
    case LongEnough => |p| >= 8
  }

  /** The criteria a password meets. */
  function Met(p: string): set<Criterion> {
    set c | c in AllCriteria && Satisfies(p, c)
  }

  function Bit(b: bool): nat {
    if b then 1 else 0
  }

  /** The counter the input handler increments once per satisfied criterion. */
  function Strength(p: string): nat {
    Bit(Satisfies(p, HasUpper)) + Bit(Satisfies(p, HasLower)) + Bit(Satisfies(p, HasDigit)) +
    Bit(Satisfies(p, HasSpecial)) + Bit(Satisfies(p, LongEnough))
  }

  function Only(c: Criterion, b: bool): set<Criterion> {
    if b then {c} else {}
  }

  /** Adding a criterion not yet counted adds one exactly when it holds. */
  lemma {:induction false} AddCriterion(counted: set<Criterion>, c: Criterion, b: bool)
    requires c !in counted
    ensures |counted + Only(c, b)| == |counted| + Bit(b)
  {
    if b {
      assert counted + {c} == counted + {c};
    }
  }

  /** The criterion `c` among five given truth values, one per criterion. */
  predicate Pick(c: Criterion, u: bool, l: bool, d: bool, sp: bool, n: bool) {
    match c
    case HasUpper => u
    case HasLower => l
    case HasDigit => d
    case HasSpecial => sp
    case LongEnough => n
  }

  /** The criteria that hold among the first two, three and four, and among all five. */
  function Picked2(u: bool, l: bool): set<Criterion> {
    Only(HasUpper, u) + Only(HasLower, l)
  }

  function Picked3(u: bool, l: bool, d: bool): set<Criterion> {
    Picked2(u, l) + Only(HasDigit, d)
  }

  function Picked4(u: bool, l: bool, d: bool, sp: bool): set<Criterion> {
    Picked3(u, l, d) + Only(HasSpecial, sp)
  }

  function Picked(u: bool, l: bool, d: bool, sp: bool, n: bool): set<Criterion> {
    Picked4(u, l, d, sp) + Only(LongEnough, n)
  }

  lemma {:induction false} PickedIsFiltered(u: bool, l: bool, d: bool, sp: bool, n: bool)
    ensures (set c | c in AllCriteria && Pick(c, u, l, d, sp, n)) == Picked(u, l, d, sp, n)
  {
    forall x | x in Picked(u, l, d, sp, n) ensures x in AllCriteria && Pick(x, u, l, d, sp, n) {
    }
  }

  lemma {:induction false} CountPicked2(u: bool, l: bool)
    ensures |Picked2(u, l)| == Bit(u) + Bit(l)
  {
    AddCriterion(Only(HasUpper, u), HasLower, l);
  }

  lemma {:induction false} CountPicked3(u: bool, l: bool, d: bool)
    ensures |Picked3(u, l, d)| == Bit(u) + Bit(l) + Bit(d)
  {
    CountPicked2(u, l);
    AddCriterion(Picked2(u, l), HasDigit, d);
  }

  lemma {:induction false} CountPicked4(u: bool, l: bool, d: bool, sp: bool)
    ensures |Picked4(u, l, d, sp)| == Bit(u) + Bit(l) + Bit(d) + Bit(sp)
  {
    CountPicked3(u, l, d);
    AddCriterion(Picked3(u, l, d), HasSpecial, sp);
  }

  /** Counting the criteria that hold, one at a time. */
  lemma {:induction false} CountPicked(u: bool, l: bool, d: bool, sp: bool, n: bool)
    ensures |Picked(u, l, d, sp, n)| == Bit(u) + Bit(l) + Bit(d) + Bit(sp) + Bit(n)
  {
    CountPicked4(u, l, d, sp);
    AddCriterion(Picked4(u, l, d, sp), LongEnough, n);
  }

  /** The criteria a password meets, read off its five truth values. */
  lemma {:induction false} MetIsPicked(p: string)
    ensures Met(p) == Picked(Satisfies(p, HasUpper), Satisfies(p, HasLower), Satisfies(p, HasDigit),
                             Satisfies(p, HasSpecial), Satisfies(p, LongEnough))
  {
    var u, l, d, sp, n := Satisfies(p, HasUpper), Satisfies(p, HasLower), Satisfies(p, HasDigit),
                          Satisfies(p, HasSpecial), Satisfies(p, LongEnough);
    PickedIsFiltered(u, l, d, sp, n);
    forall c ensures Satisfies(p, c) == Pick(c, u, l, d, sp, n) {
    }
  }

  /** The strength is the number of criteria met, so it lies between 0 and 5. */
  lemma {:induction false} StrengthCountsCriteria(p: string)
    ensures Strength(p) == |Met(p)|
    ensures 0 <= Strength(p) <= 5
  {
    MetIsPicked(p);
    CountPicked(Satisfies(p, HasUpper), Satisfies(p, HasLower), Satisfies(p, HasDigit),
                Satisfies(p, HasSpecial), Satisfies(p, LongEnough));
  }

  datatype Label = Weak | Medium | Strong

  /** The label shown for a strength: at most 1 is weak, at most 3 medium, otherwise strong. */
  function StrengthLabel(s: nat): Label {
    if s <= 1 then Weak else if s <= 3 then Medium else Strong
  }

  /** The label follows the number of criteria met; the length is one criterion among five. */
  lemma {:induction false} LabelByCriteria(p: string)
    ensures StrengthLabel(Strength(p)) == Weak <==> |Met(p)| <= 1
    ensures StrengthLabel(Strength(p)) == Medium <==> 2 <= |Met(p)| <= 3
    ensures StrengthLabel(Strength(p)) == Strong <==> |Met(p)| >= 4
  {
    StrengthCountsCriteria(p);
  }

  /** A four-character password with a capital, a small letter, a digit and a special character is labelled strong. */
  lemma {:induction false} ShortPasswordCanBeStrong()
    ensures StrengthLabel(Strength("Aa1!")) == Strong
  {
    var p := "Aa1!";
    assert IsUpper(p[0]) && IsLower(p[1]) && IsDigit(p[2]) && IsSpecial(p[3]);
  }

  // ---------------------------------------------------------------------
  // Trimming and field checks

  /** The characters `String.prototype.trim` removes and `\s` matches. */
  predicate JsSpace(c: char) {
    c == '\t' || c == '\n' || c == '\U{000B}' || c == '\U{000C}' || c == '\r' || c == ' ' ||
    c == '\U{00A0}' || c == '\U{1680}' || ('\U{2000}' <= c <= '\U{200A}') ||
    c == '\U{2028}' || c == '\U{2029}' || c == '\U{202F}' || c == '\U{205F}' ||
    c == '\U{3000}' || c == '\U{FEFF}'
  }

  function Trim(s: string): (t: string)
    ensures |t| <= |s|
    ensures t != [] ==> !JsSpace(t[0]) && !JsSpace(t[|t| - 1])
  {
    var p := StripRange(s, JsSpace);
    s[p.0..p.1]
  }

  /** A value that is blank after trimming. */
  lemma {:induction false} TrimBlank(s: string)
    requires forall i :: 0 <= i < |s| ==> JsSpace(s[i])
    ensures Trim(s) == []
  {
  }

  /** The message state of a field: no error, the "required" error, or the format error. */
  datatype FieldCheck = Valid | Required | Malformed

  /** `[a-zA-Z0-9_]`. */
  predicate UsernameChar(c: char) {
    'a' <= c <= 'z' || 'A' <= c <= 'Z' || '0' <= c <= '9' || c == '_'
  }

  /** `/^[a-zA-Z0-9_]{3,20}$/.test(t)`: the run of username characters is the whole string and 3 to 20 long. */
  predicate UsernameMatches(t: string) {
    var n := LeadingDropped(t, UsernameChar);
    n == |t| && 3 <= n <= 20
  }

  /** The username blur handler. */
  function UsernameCheck(value: string): FieldCheck {
    var t := Trim(value);
    if t == [] then Required else if !UsernameMatches(t) then Malformed else Valid
  }

  /** A username is accepted exactly when its trimmed value has 3 to 20 characters, all letters, digits or `_`. */
  lemma {:induction false} UsernameCheckIff(value: string)
    ensures UsernameCheck(value) == Valid <==>
              var t := Trim(value);
              3 <= |t| <= 20 && forall i :: 0 <= i < |t| ==> UsernameChar(t[i])
    ensures UsernameCheck(value) == Required <==> Trim(value) == []
  {
  }

  /** `[^\s@]`. */
  predicate EmailChar(c: char) {
    !JsSpace(c) && c != '@'
  }

  predicate EmailPart(s: string) {
    s != [] && forall i :: 0 <= i < |s| ==> EmailChar(s[i])
  }

  /**
   `/^[^\s@]+@[^\s@]+\.[^\s@]+$/.test(t)`: a run of e-mail characters, an `@`,
   then e-mail characters only, among them a `.` that is neither first nor last.
   */
  predicate EmailMatches(t: string) {
    var a := LeadingDropped(t, EmailChar);
    1 <= a < |t| && t[a] == '@' &&
    (forall i :: a < i < |t| ==> EmailChar(t[i])) &&
    exists k :: a + 2 <= k < |t| - 1 && t[k] == '.'
  }

  /** The e-mail blur handler. */
  function EmailCheck(value: string): FieldCheck {
    var t := Trim(value);
    if t == [] then Required else if !EmailMatches(t) then Malformed else Valid
  }

  /** Every `local@domain.tld` made of non-blank parts without `@` matches. */
  lemma {:induction false} EmailOfParts(local: string, domain: string, tld: string)
    requires EmailPart(local) && EmailPart(domain) && EmailPart(tld)
    ensures EmailMatches(local + "@" + domain + "." + tld)
  {
    var t := local + "@" + domain + "." + tld;
    var a := |local|;
    assert forall i :: 0 <= i < a ==> t[i] == local[i];
    assert t[a] == '@';
    assert LeadingDropped(t, EmailChar) == a;
    forall i | a < i < |t| ensures EmailChar(t[i]) {
      if i < a + 1 + |domain| {
        assert t[i] == domain[i - a - 1];
      } else if i > a + 1 + |domain| {
        assert t[i] == tld[i - a - 2 - |domain|];
      }
    }
    assert t[a + 1 + |domain|] == '.';
  }

  /** Every matching string splits into such parts. */
  lemma {:induction false} EmailSplits(t: string) returns (local: string, domain: string, tld: string)
    requires EmailMatches(t)
    ensures EmailPart(local) && EmailPart(domain) && EmailPart(tld)
    ensures t == local + "@" + domain + "." + tld
  {
    var a := LeadingDropped(t, EmailChar);
    var k :| a + 2 <= k < |t| - 1 && t[k] == '.';
    local, domain, tld := t[..a], t[a + 1..k], t[k + 1..];
    assert t == local + "@" + domain + "." + tld;
  }

  /** A blank value gets the "required" error from both the username and the e-mail check. */
  lemma {:induction false} BlankIsRequired(value: string)
    requires forall i :: 0 <= i < |value| ==> JsSpace(value[i])
    ensures UsernameCheck(value) == Required && EmailCheck(value) == Required
  {
    TrimBlank(value);
  }

  /** The confirmation blur handler: an error exactly when the two fields differ. */
  function ConfirmCheck(password: string, confirm: string): (r: FieldCheck)
    ensures r == Valid <==> confirm == password
    ensures r != Required
  {
    if confirm != password then Malformed else Valid
  }

  // ---------------------------------------------------------------------
  // Archive upload

  /** 100 MiB. */
  const MaxArchiveBytes: nat := 100 * 1024 * 1024

  const ArchiveExtensions: seq<string> := [".zip", ".rar", ".7zip"]

  datatype ArchiveCheck = TooLarge | WrongType | Accepted

  /** The file input's change handler on the first selected file. */
  function CheckArchive(size: nat, name: string): ArchiveCheck {
    if size > MaxArchiveBytes then TooLarge
    else if exists ext :: ext in ArchiveExtensions && EndsWith(Lower(name), ext) then Accepted
    else WrongType
  }

  /**
   The size is checked first, whatever the name; a file within the limit is
   accepted exactly when its lower-cased name ends in one of the three
   extensions.
   */
  lemma {:induction false} ArchiveRules(size: nat, name: string)
    ensures size > 104857600 ==> CheckArchive(size, name) == TooLarge
    ensures CheckArchive(size, name) == Accepted <==>
              size <= 104857600 &&
              (EndsWith(Lower(name), ".zip") || EndsWith(Lower(name), ".rar") || EndsWith(Lower(name), ".7zip"))
  {
    assert forall ext :: ext in ArchiveExtensions <==> ext == ".zip" || ext == ".rar" || ext == ".7zip";
  }

  /** Lower-casing is idempotent, so the verdict does not depend on the case of the name. */
  lemma {:induction false} ArchiveIgnoresCase(size: nat, name: string)
    ensures CheckArchive(size, Lower(name)) == CheckArchive(size, name)
  {
    assert Lower(Lower(name)) == Lower(name);
  }

  // ---------------------------------------------------------------------
  // Login

  /** The body the login form sends: a value with `@` goes as `email`, any other as `username`. */
  function LoginBody(value: string, password: string): (l: UserLogin)
    ensures '@' in value ==> l.email == Some(value) && l.username.None?
    ensures '@' !in value ==> l.username == Some(value) && l.email.None?
    ensures l.password == password
  {
    if '@' in value then UserLogin(None, Some(value), password) else UserLogin(Some(value), None, password)
  }
}
