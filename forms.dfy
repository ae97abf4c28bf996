/** The form layer of the mailing application (`mail_serv/forms.py`): the
    forbidden-word check that cleans a recipient's initials and a message's
    subject, and the mixin that scopes the mailing form's choices to the
    requesting user and styles every widget. */
module Forms {
  import opened Shared
  import opened MailModels

  /** The words a recipient's initials or a message's subject may not
      contain, in the order in which they are tried. */
  const FORBIDDEN_WORDS: seq<string> := [
    "казино",
    "криптовалюта",
    "крипта",
    "биржа",
    "дешево",
    "бесплатно",
    "обман",
    "полиция",
    "радар"
  ]

  /** The message of the validation error raised for `word`. */
  function RejectionMessage(word: string): string {
    "Недопустимое слово: " + word
  }

  // Lowercasing, over ASCII and the Russian alphabet.

  function LowerChar(c: char): char {
    if 'A' <= c <= 'Z' then (c as int + 32) as char
    else if '\U{0410}' <= c <= '\U{042F}' then (c as int + 32) as char
    else if c == '\U{0401}' then '\U{0451}'
    else c
  }

  function Lower(s: string): string {
    seq(|s|, i requires 0 <= i < |s| => LowerChar(s[i]))
  }

  predicate IsLower(s: string) {
    Lower(s) == s
  }

  /** Lowercasing keeps the length and lowercases only once. */
  lemma LowerIsIdempotent(s: string)
    ensures |Lower(s)| == |s|
    ensures IsLower(Lower(s))
  {
    assert forall i :: 0 <= i < |s| ==> LowerChar(LowerChar(s[i])) == LowerChar(s[i]);
  }

  /** Every forbidden word is already lower case, so the check is
      case-insensitive. */
  lemma ForbiddenWordsAreLower()
    ensures forall j :: 0 <= j < |FORBIDDEN_WORDS| ==> IsLower(FORBIDDEN_WORDS[j])
  {
    forall j | 0 <= j < |FORBIDDEN_WORDS| ensures IsLower(FORBIDDEN_WORDS[j]) {
      var w := FORBIDDEN_WORDS[j];
      assert forall i :: 0 <= i < |w| ==> LowerChar(w[i]) == w[i];
    }
  }

  // Substring search (`word in text`).

  /** `word` occurs in `text` at some position: the meaning of `in` on
      strings. */
  ghost predicate Occurs(text: string, word: string) {
    exists i: nat :: OccursAt(text, word, i)
  }

  predicate OccursAt(text: string, word: string, i: nat) {
    i + |word| <= |text| && text[i..i + |word|] == word
  }

  predicate StartsWith(text: string, word: string) {
    |word| <= |text| && text[..|word|] == word
  }

  /** The search that `word in text` performs: try each start position. */
  predicate Contains(text: string, word: string)
    decreases |text|
  {
    StartsWith(text, word) || (|text| > 0 && Contains(text[1..], word))
  }

  /** Dropping the first character moves every occurrence one place left. */
  lemma OccursShift(text: string, word: string, i: nat)
    requires |text| > 0
    ensures OccursAt(text[1..], word, i) <==> OccursAt(text, word, i + 1)
  {
    if i + 1 + |word| <= |text| {
      assert text[1..][i..i + |word|] == text[i + 1..i + 1 + |word|];
    }
  }

  lemma {:induction false} ContainsIsOccurs(text: string, word: string)
    ensures Contains(text, word) <==> Occurs(text, word)
    decreases |text|
  {
    if StartsWith(text, word) {
      assert OccursAt(text, word, 0);
    } else if |text| > 0 {
      ContainsIsOccurs(text[1..], word);
      if Occurs(text, word) {
        var i: nat :| OccursAt(text, word, i);
        assert i != 0;
        OccursShift(text, word, i - 1);
      }
      if Occurs(text[1..], word) {
        var i: nat :| OccursAt(text[1..], word, i);
        OccursShift(text, word, i);
      }
    }
  }

  // The clean methods.

  /** The position in `words` of the first word that occurs in `text`: the
      `for word in FORBIDDEN_WORDS` loop with its early exit. */
  function FirstMatch(words: seq<string>, text: string): (r: Option<nat>)
    ensures r.Some? ==> r.value < |words| && Contains(text, words[r.value])
    ensures r.Some? ==> forall k :: 0 <= k < r.value ==> !Contains(text, words[k])
    ensures r.None? ==> forall k :: 0 <= k < |words| ==> !Contains(text, words[k])
  {
    if words == [] then None
    else if Contains(text, words[0]) then Some(0)
    else match FirstMatch(words[1..], text)
      case None => None
      case Some(j) => Some(j + 1)
  }

  /** What a field's clean method returns: the cleaned value, or the
      validation error it raises. */
  datatype Cleaned = Accepted(value: string) | Rejected(error: string)

  /** Some forbidden word occurs in `text`. */
  ghost predicate HasForbiddenWord(text: string) {
    exists j :: 0 <= j < |FORBIDDEN_WORDS| && Occurs(text, FORBIDDEN_WORDS[j])
  }

  /** The promise of the forbidden-word check for input `value`: it rejects
      exactly when a forbidden word occurs in the lowercased value, naming the
      first such word in list order; otherwise it returns the lowercased
      value, which holds no forbidden word. */
  ghost predicate CleanSpec(value: string, r: Cleaned) {
    var text := Lower(value);
    && (r.Rejected? <==> HasForbiddenWord(text))
    && (r.Rejected? ==> exists j :: 0 <= j < |FORBIDDEN_WORDS| && Occurs(text, FORBIDDEN_WORDS[j])
                              && (forall k :: 0 <= k < j ==> !Occurs(text, FORBIDDEN_WORDS[k]))
                              && r.error == RejectionMessage(FORBIDDEN_WORDS[j]))
    && (r.Accepted? ==> r.value == text && |r.value| == |value| && !HasForbiddenWord(r.value))
  }

  /** The check shared by `clean_initials` and `clean_subject`. */
  function Clean(value: string): (r: Cleaned)
    ensures CleanSpec(value, r)
  {
    var text := Lower(value);
    assert forall w :: Contains(text, w) <==> Occurs(text, w) by {
      forall w ensures Contains(text, w) <==> Occurs(text, w) {
        ContainsIsOccurs(text, w);
      }
    }
    match FirstMatch(FORBIDDEN_WORDS, text)
    case Some(j) => Rejected(RejectionMessage(FORBIDDEN_WORDS[j]))
    case None => Accepted(text)
  }

  /** The fields of `RecipientForm`. */
  datatype RecipientInput = RecipientInput(email: string, initials: string, comment: string)

  /** The fields of `MessageManagementForm`. */
  datatype MessageInput = MessageInput(subject: string, body: string)

  function CleanInitials(input: RecipientInput): (r: Cleaned)
    ensures CleanSpec(input.initials, r)
  {
    Clean(input.initials)
  }

  function CleanSubject(input: MessageInput): (r: Cleaned)
    ensures CleanSpec(input.subject, r)
  {
    Clean(input.subject)
  }

  /** Cleaning again the value a clean method accepted accepts it and
      returns it unchanged. */
  lemma CleanIsIdempotent(value: string)
    requires Clean(value).Accepted?
    ensures Clean(Clean(value).value) == Clean(value)
  {
    LowerIsIdempotent(value);
  }

  /** A value that fits its column still fits once cleaned. */
  lemma CleanKeepsLength(value: string, bound: nat)
    requires |value| <= bound && Clean(value).Accepted?
    ensures |Clean(value).value| <= bound
  {
  }

  /** The example input of `ListOrderWins`, lowercased. */
  lemma RadarCasinoLowered()
    ensures Lower("Радар казино") == "радар казино"
  {
  }

  /** The error names the first forbidden word in list order, not the one
      that comes first in the text: "радар" starts the text, but the error
      names "казино". */
  lemma ListOrderWins()
    ensures Occurs(Lower("Радар казино"), "радар") && Occurs(Lower("Радар казино"), "казино")
    ensures Clean("Радар казино") == Rejected(RejectionMessage("казино"))
  {
    RadarCasinoLowered();
    var text := "радар казино";
    assert OccursAt(text, "радар", 0);
    assert OccursAt(text, "казино", 6);
    assert StartsWith(text[6..], "казино");
    assert Contains(text, "казино") by {
      assert Contains(text[6..], "казино");
      assert text[6..] == text[1..][1..][1..][1..][1..][1..];
    }
  }

  // `StyleFormMixin.__init__`.

  /** A form field: whether it is a `BooleanField`, its label (none for a
      field declared without one, such as the mailing form's explicit
      `started_at` and `ended_at`), its widget's HTML attributes (an
      attribute may hold Python's `None`), and the primary keys it offers as
      choices (its queryset; empty for fields without choices). */
  datatype FormField = FormField(name: string, isBoolean: bool, fieldLabel: Option<string>, attrs: map<string, Option<string>>, queryset: seq<nat>)

  /** The widget attributes the mixin sets on one field. */
  function Styled(f: FormField): (g: FormField)
    ensures g.name == f.name && g.isBoolean == f.isBoolean && g.fieldLabel == f.fieldLabel && g.queryset == f.queryset
    ensures "class" in g.attrs
    ensures f.isBoolean ==> g.attrs["class"] == Some("form-check-input") && g.attrs.Keys == f.attrs.Keys + {"class"}
    ensures !f.isBoolean ==>
              && g.attrs["class"] == Some("form-control")
              && "placeholder" in g.attrs && g.attrs["placeholder"] == f.fieldLabel
              && g.attrs.Keys == f.attrs.Keys + {"class", "placeholder"}
    ensures forall k :: k in f.attrs && k != "class" && (f.isBoolean || k != "placeholder") ==>
              k in g.attrs && g.attrs[k] == f.attrs[k]
  {
    if f.isBoolean then f.(attrs := f.attrs["class" := Some("form-check-input")])
    else f.(attrs := f.attrs["class" := Some("form-control")]["placeholder" := f.fieldLabel])
  }

  /** The primary keys of the rows of a table owned by `user`, in table
      order (`Model.objects.filter(owner=user)` offered as choices). */
  function OwnedIds<T>(rows: seq<T>, owner: T -> nat, key: T -> nat, user: nat): (r: seq<nat>)
    ensures forall id :: id in r <==> exists k :: 0 <= k < |rows| && owner(rows[k]) == user && key(rows[k]) == id
  {
    if rows == [] then []
    else (if owner(rows[0]) == user then [key(rows[0])] else []) + OwnedIds(rows[1..], owner, key, user)
  }

  predicate DistinctNames(fields: seq<FormField>) {
    forall i, j :: 0 <= i < j < |fields| ==> fields[i].name != fields[j].name
  }

  predicate HasField(fields: seq<FormField>, name: string) {
    exists i :: 0 <= i < |fields| && fields[i].name == name
  }

  /** The position of the field called `name` (`self.fields[name]`). */
  function FieldIndex(fields: seq<FormField>, name: string): (r: Option<nat>)
    ensures r.Some? ==> r.value < |fields| && fields[r.value].name == name
    ensures r.None? <==> !HasField(fields, name)
  {
    if fields == [] then None
    else if fields[0].name == name then Some(0)
    else match FieldIndex(fields[1..], name)
      case None => None
      case Some(j) => Some(j + 1)
  }

  /** The field after the mixin has narrowed its choices to `user`'s rows
      (only the "recipients" and "message" fields, and only when a user is
      given). */
  function Scoped(f: FormField, user: Option<nat>, rs: seq<Recipient>, gs: seq<Message>): FormField {
    if user.Some? && f.name == "recipients" then f.(queryset := OwnedIds(rs, RecipientOwner, RecipientKey, user.value))
    else if user.Some? && f.name == "message" then f.(queryset := OwnedIds(gs, MessageOwner, MessageKey, user.value))
    else f
  }

  /** A form built with `StyleFormMixin` in front of it. */
  class StyledForm {
    var fields: seq<FormField>
    var user: Option<nat>

    /** Takes the fields the form class declares, the `user` keyword argument
        and the two tables the choices come from. A user may be passed only to
        a form that has "recipients" and "message" fields; any other form
        would raise a `KeyError`. */
    constructor (declared: seq<FormField>, requester: Option<nat>, rs: seq<Recipient>, gs: seq<Message>)
      requires DistinctNames(declared)
      requires requester.Some? ==> HasField(declared, "recipients") && HasField(declared, "message")
      ensures user == requester
      ensures |fields| == |declared|
      ensures forall i :: 0 <= i < |declared| ==> fields[i] == Styled(Scoped(declared[i], requester, rs, gs))
    {
      user := requester;
      fields := declared;
      new;
      if requester.Some? {
        ScopeChoices(requester.value, rs, gs);
      } else {
        assert forall i :: 0 <= i < |declared| ==> Scoped(declared[i], requester, rs, gs) == declared[i];
      }
      StyleWidgets();
    }

    /** The `user` branch: the "recipients" and "message" fields offer only
        the rows that `owner` owns. */
    method ScopeChoices(owner: nat, rs: seq<Recipient>, gs: seq<Message>)
      requires DistinctNames(fields) && HasField(fields, "recipients") && HasField(fields, "message")
      modifies this`fields
      ensures |fields| == |old(fields)|
      ensures forall i :: 0 <= i < |fields| ==> fields[i] == Scoped(old(fields)[i], Some(owner), rs, gs)
    {
      var ri := FieldIndex(fields, "recipients").value;
      fields := fields[ri := fields[ri].(queryset := OwnedIds(rs, RecipientOwner, RecipientKey, owner))];
      assert forall k :: 0 <= k < |fields| ==> fields[k].name == old(fields)[k].name;
      var mi := FieldIndex(fields, "message").value;
      fields := fields[mi := fields[mi].(queryset := OwnedIds(gs, MessageOwner, MessageKey, owner))];
    }

    /** The loop over the fields that sets each widget's attributes. */
    method StyleWidgets()
      modifies this`fields
      ensures |fields| == |old(fields)|
      ensures forall i :: 0 <= i < |fields| ==> fields[i] == Styled(old(fields)[i])
    {
      var i := 0;
      while i < |fields|
        invariant 0 <= i <= |fields| == |old(fields)|
        invariant forall k :: 0 <= k < i ==> fields[k] == Styled(old(fields)[k])
        invariant forall k :: i <= k < |fields| ==> fields[k] == old(fields)[k]
      {
        fields := fields[i := Styled(fields[i])];
        i := i + 1;
      }
    }
  }
}
