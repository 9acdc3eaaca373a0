/** JSON pointers (RFC 6901): building the pointer to an item and following it. */
module JsonPointer {
  import opened Basics
  import Json
  import JsonRoundTrip

  const SLASH: byte := 47
  const TILDE: byte := 126
  const ZERO: byte := 48
  const ONE: byte := 49
  const NINE: byte := 57

  /** An item of the tree; `id` is its address, keys are those of an object's members. */
  datatype Item = Leaf(id: nat) | Array(id: nat, items: seq<Item>) | Object(id: nat, members: seq<Member>)

  datatype Member = Member(key: seq<byte>, item: Item)

  // ---------- one reference token ----------

  function EscapeByte(b: byte): (r: seq<byte>)
    ensures 1 <= |r| <= 2
  {
    if b == SLASH then [TILDE, ONE] else if b == TILDE then [TILDE, ZERO] else [b]
  }

  /** '~' becomes "~0" and '/' becomes "~1". */
  function Encode(s: seq<byte>): seq<byte> {
    if s == [] then [] else EscapeByte(s[0]) + Encode(s[1..])
  }

  /** pointer_encoded_length. */
  method EncodedLength(s: seq<byte>) returns (length: nat)
    ensures length == |Encode(s)|
  {
    length := 0;
    var i := 0;
    assert s[0..] == s;
    while i < |s|
      invariant i <= |s| && length + |Encode(s[i..])| == |Encode(s)|
    {
      assert s[i..][1..] == s[i + 1..];
      if s[i] == TILDE || s[i] == SLASH {
        length := length + 1;
      }
      length, i := length + 1, i + 1;
    }
  }

  /** encode_string_as_pointer, with its terminator. */
  method EncodeInto(dest: array<byte>, at: nat, s: seq<byte>)
    requires at + |Encode(s)| < dest.Length
    modifies dest
    ensures dest[..at + |Encode(s)|] == old(dest[..at]) + Encode(s) && dest[at + |Encode(s)|] == 0
  {
    hide EscapeByte, Encode;
    var i: nat, d: nat := 0, at;
    EncodeNothing(s);
    assert s[0..] == s;
    while i < |s|
      invariant i <= |s| && d <= dest.Length && d + |Encode(s[i..])| == at + |Encode(s)|
      invariant dest[..d] + Encode(s[i..]) == old(dest[..at]) + Encode(s)
    {
      ghost var done, rest := dest[..d], Encode(s[i + 1..]);
      EncodeTurn(s, i);
      d := EscapeInto(dest, d, s[i]);
      assert done + EscapeByte(s[i]) + rest == done + (EscapeByte(s[i]) + rest);
      i := i + 1;
    }
    dest[d] := 0;
  }

  lemma EncodeTurn(s: seq<byte>, i: nat)
    requires i < |s|
    ensures Encode(s[i..]) == EscapeByte(s[i]) + Encode(s[i + 1..])
  {
    assert s[i..][1..] == s[i + 1..];
  }

  lemma EncodeNothing(s: seq<byte>)
    ensures Encode(s[|s|..]) == []
  {
  }

  /** The part of that loop for one character. */
  method EscapeInto(dest: array<byte>, at: nat, b: byte) returns (d: nat)
    requires at + |EscapeByte(b)| < dest.Length
    modifies dest
    ensures d == at + |EscapeByte(b)| && dest[..d] == old(dest[..at]) + EscapeByte(b)
  {
    EscapedByte(b);
    if b == SLASH {
      dest[at], dest[at + 1] := TILDE, ONE;
      d := at + 2;
    } else if b == TILDE {
      dest[at], dest[at + 1] := TILDE, ZERO;
      d := at + 2;
    } else {
      dest[at] := b;
      d := at + 1;
    }
  }

  lemma EscapedByte(b: byte)
    ensures EscapeByte(b) == if b == SLASH then [TILDE, ONE] else if b == TILDE then [TILDE, ZERO] else [b]
  {
  }

  /** The next token: up to the next slash or the end. */
  function Token(p: seq<byte>): seq<byte> {
    if p == [] || p[0] == SLASH then [] else [p[0]] + Token(p[1..])
  }

  /** compare_pointers, case-sensitive. */
  function Matches(name: seq<byte>, p: seq<byte>): bool
    decreases |p|
  {
    if name == [] || p == [] || p[0] == SLASH then (p != [] && p[0] != SLASH) == (name != [])
    else if p[0] == TILDE then
      && |p| > 1 && ((p[1] == ZERO && name[0] == TILDE) || (p[1] == ONE && name[0] == SLASH))
      && Matches(name[1..], p[2..])
    else name[0] == p[0] && Matches(name[1..], p[1..])
  }

  /** A name is matched exactly by the token that is its escaped form; a token with an invalid escape
      matches nothing. */
  lemma {:induction false} MatchesEncoded(name: seq<byte>, p: seq<byte>)
    ensures Matches(name, p) <==> Token(p) == Encode(name)
    decreases |p|
  {
    hide EscapeByte;
    if name == [] || p == [] || p[0] == SLASH {
      if name != [] {
        EscapedByte(name[0]);
      }
    } else if p[0] == TILDE {
      if |p| > 1 && p[1] != SLASH {
        MatchesEncoded(name[1..], p[2..]);
      }
      MatchesTilde(name, p);
    } else {
      MatchesEncoded(name[1..], p[1..]);
      MatchesPlain(name, p);
    }
  }

  /** Two texts with heads of one length are equal when heads and tails are. */
  lemma HeadTail(a: seq<byte>, b: seq<byte>, c: seq<byte>, d: seq<byte>)
    requires |a| == |c|
    ensures a + b == c + d <==> a == c && b == d
  {
    if a + b == c + d {
      assert a == (a + b)[..|a|] && c == (c + d)[..|a|];
      assert b == (a + b)[|a|..] && d == (c + d)[|a|..];
    }
  }

  lemma MatchesPlain(name: seq<byte>, p: seq<byte>)
    requires name != [] && p != [] && p[0] != SLASH && p[0] != TILDE
    ensures Token(p) == Encode(name) <==> name[0] == p[0] && Token(p[1..]) == Encode(name[1..])
  {
    EscapedByte(name[0]);
    var b := EscapeByte(name[0]);
    if |b| == 1 {
      HeadTail([p[0]], Token(p[1..]), b, Encode(name[1..]));
    } else {
      assert Encode(name)[0] == TILDE && Token(p)[0] == p[0];
    }
  }

  lemma MatchesTilde(name: seq<byte>, p: seq<byte>)
    requires name != [] && p != [] && p[0] == TILDE
    ensures Token(p) == Encode(name) <==>
              && |p| > 1 && ((p[1] == ZERO && name[0] == TILDE) || (p[1] == ONE && name[0] == SLASH))
              && Token(p[2..]) == Encode(name[1..])
  {
    hide EscapeByte, Encode, Token;
    var b, rest := EscapeByte(name[0]), Encode(name[1..]);
    EscapedByte(name[0]);
    EncodeStep(name);
    TokenStep(p);
    if |p| > 1 && p[1] != SLASH {
      TokenStep(p[1..]);
      assert p[1..][1..] == p[2..];
      if |b| == 2 {
        Regroup2(p[0], p[1], Token(p[2..]));
        HeadTail([p[0], p[1]], Token(p[2..]), b, rest);
      } else {
        assert (b + rest)[0] == name[0] != TILDE;
      }
    } else {
      TokenOfNone(p[1..]);
      if |b| == 1 {
        assert (b + rest)[0] == name[0] != TILDE;
      }
    }
  }

  lemma Regroup2(a: byte, b: byte, c: seq<byte>)
    ensures [a] + ([b] + c) == [a, b] + c
  {
  }

  lemma EncodeStep(s: seq<byte>)
    requires s != []
    ensures Encode(s) == EscapeByte(s[0]) + Encode(s[1..])
  {
  }

  lemma TokenStep(p: seq<byte>)
    requires p != [] && p[0] != SLASH
    ensures Token(p) == [p[0]] + Token(p[1..])
  {
  }

  lemma TokenOfNone(p: seq<byte>)
    requires p == [] || p[0] == SLASH
    ensures Token(p) == []
  {
  }

  /** compare_pointers as the source runs it, two cursors in step. */
  method ComparePointers(name: seq<byte>, p: seq<byte>) returns (same: bool)
    ensures same == Matches(name, p)
  {
    var i, j := 0, 0;
    assert name[0..] == name && p[0..] == p;
    while i < |name| && j < |p| && p[j] != SLASH
      invariant i <= |name| && j <= |p| && Matches(name, p) == Matches(name[i..], p[j..])
      decreases |p| - j
    {
      assert name[i..][1..] == name[i + 1..] && p[j..][1..] == p[j + 1..];
      if p[j] == TILDE {
        var next := if j + 1 < |p| then p[j + 1] else 0;
        if (next != ZERO || name[i] != TILDE) && (next != ONE || name[i] != SLASH) {
          return false;
        }
        assert p[j..][2..] == p[j + 2..];
        j := j + 1;
      } else if name[i] != p[j] {
        return false;
      }
      i, j := i + 1, j + 1;
    }
    same := (j < |p| && p[j] != SLASH) == (i < |name|);
  }

  // ---------- array indices ----------

  /** decode_array_index_from_pointer.  The loop's second test looks at the first character of the
      token, not at the current one, so behind a digit everything from '0' on passes for a digit. */
  method DecodeIndex(p: seq<byte>) returns (ok: bool, index: nat)
    ensures Index(p) == if ok then Some(index) else None
    ensures ok <==> PassesAsIndex(Token(p))
  {
    index := 0;
    IndexAccepts(p);
    if p != [] && p[0] == ZERO && |p| > 1 && p[1] != SLASH {
      return false, 0;
    }
    var k := 0;
    assert p[0..] == p;
    while k < |p| && p[k] >= ZERO && p[0] <= NINE
      invariant k <= |p| && Value(p, p, 0) == Value(p, p[k..], index)
    {
      assert p[k..][1..] == p[k + 1..];
      index, k := 10 * index + (p[k] - ZERO), k + 1;
    }
    ok := k == |p| || p[k] == SLASH;
  }

  /** The value read on the rest t of the token p. */
  function Value(p: seq<byte>, t: seq<byte>, value: nat): Option<nat>
    decreases |t|
  {
    if t != [] && t[0] >= ZERO && p != [] && p[0] <= NINE then Value(p, t[1..], 10 * value + (t[0] - ZERO))
    else if t == [] || t[0] == SLASH then Some(value)
    else None
  }

  function Index(p: seq<byte>): Option<nat> {
    if |p| > 1 && p[0] == ZERO && p[1] != SLASH then None else Value(p, p, 0)
  }

  /** A printed index is read back. */
  lemma IndexReadsDigits(n: nat, rest: seq<byte>)
    requires rest == [] || rest[0] == SLASH
    ensures Index(Json.Digits(n) + rest) == Some(n)
  {
    hide Json.Digits;
    var d := Json.Digits(n);
    var p := d + rest;
    assert d[0] in d;
    NoLeadingZero(n);
    ValueOfDigits(p, n, rest);
    assert Value(p, rest, n) == Some(n);
  }

  /** array-index of RFC 6901, section 4: "0", or digits of which the first is not '0'. */
  predicate IsArrayIndex(t: seq<byte>) {
    t == [ZERO] || (t != [] && ZERO < t[0] <= NINE && forall b | b in t :: ZERO <= b <= NINE)
  }

  /** What passes for an index: nothing at all, "0", or a digit other than '0' and then anything but
      characters below '0'. */
  predicate PassesAsIndex(t: seq<byte>) {
    t == [] || t == [ZERO] || (ZERO < t[0] <= NINE && forall b | b in t :: b >= ZERO)
  }

  lemma {:induction false} ValueAccepts(p: seq<byte>, t: seq<byte>, value: nat)
    requires p != [] && p[0] <= NINE
    ensures Value(p, t, value).Some? <==> forall b | b in Token(t) :: b >= ZERO
    decreases |t|
  {
    if t != [] && t[0] != SLASH {
      assert Token(t) == [t[0]] + Token(t[1..]);
      assert forall b :: b in Token(t) <==> b == t[0] || b in Token(t[1..]);
      if t[0] >= ZERO {
        ValueAccepts(p, t[1..], 10 * value + (t[0] - ZERO));
      } else {
        assert t[0] in Token(t);
      }
    }
  }

  /** Which tokens are taken for an index. */
  lemma IndexAccepts(p: seq<byte>)
    ensures Index(p).Some? <==> PassesAsIndex(Token(p))
  {
    if p != [] && p[0] != SLASH {
      assert Token(p) == [p[0]] + Token(p[1..]);
      assert |Token(p)| == 1 <==> |p| == 1 || p[1] == SLASH;
      if p[0] <= NINE {
        ValueAccepts(p, p, 0);
      }
    }
  }

  /**
   The lookup takes exactly the array indices of RFC 6901 if and only if the token is not empty and
   does not have, behind a digit other than '0', a character above '9' and none below '0'.
   */
  lemma IndexMeetsGrammar(p: seq<byte>)
    ensures var t := Token(p);
            (Index(p).Some? <==> IsArrayIndex(t)) <==>
            t != [] && !(ZERO < t[0] <= NINE && (forall b | b in t :: b >= ZERO) && (exists b | b in t :: b > NINE))
  {
    IndexAccepts(p);
  }

  /** Inputs that are no indices: the empty token is 0, "1;" is 21 and "1a" is 59. */
  lemma NoIndices()
    ensures Index([]) == Some(0) && Index([49, 59]) == Some(21) && Index([49, 97]) == Some(59)
    ensures !IsArrayIndex([]) && !IsArrayIndex([49, 59]) && !IsArrayIndex([49, 97])
  {
    assert 59 in [49, 59] && 97 in [49, 97];
    assert [49, 59][1..] == [59] && [49, 97][1..] == [97] && [59][1..] == [] && [97][1..] == [];
  }

  /** What is an index by that grammar is the printed form of a number, and read as that number. */
  lemma {:induction false} IndexValue(p: seq<byte>) returns (n: nat)
    requires IsArrayIndex(Token(p))
    ensures Token(p) == Json.Digits(n) && Index(p) == Some(n)
  {
    n := DigitsOf(Token(p));
    var rest := TokenCut(p);
    IndexReadsDigits(n, rest);
  }

  lemma {:induction false} DigitsOf(t: seq<byte>) returns (n: nat)
    requires IsArrayIndex(t)
    ensures Json.Digits(n) == t && (t[0] != ZERO ==> n > 0)
    decreases |t|
  {
    if |t| == 1 {
      n := t[0] - ZERO;
    } else {
      var k := |t| - 1;
      assert forall b | b in t[..k] :: b in t;
      var high := DigitsOf(t[..k]);
      assert t[k] in t;
      n := 10 * high + (t[k] - ZERO);
      assert n / 10 == high && n % 10 == t[k] - ZERO;
      assert t == t[..k] + [t[k]];
    }
  }

  lemma {:induction false} TokenCut(p: seq<byte>) returns (rest: seq<byte>)
    ensures p == Token(p) + rest && (rest == [] || rest[0] == SLASH)
    decreases |p|
  {
    if p == [] || p[0] == SLASH {
      rest := p;
    } else {
      rest := TokenCut(p[1..]);
    }
  }

  lemma {:induction false} NoLeadingZero(n: nat)
    ensures Json.Digits(n)[0] == ZERO ==> n == 0 && |Json.Digits(n)| == 1
    ensures n > 0 ==> Json.Digits(n)[0] != ZERO
  {
    if n >= 10 {
      NoLeadingZero(n / 10);
      assert Json.Digits(n)[0] == Json.Digits(n / 10)[0];
    }
  }

  lemma {:induction false} ValueOfDigits(p: seq<byte>, n: nat, rest: seq<byte>)
    requires p != [] && p[0] <= NINE
    ensures Value(p, Json.Digits(n) + rest, 0) == Value(p, rest, n)
    decreases n
  {
    if n < 10 {
      assert (Json.Digits(n) + rest)[1..] == rest;
    } else {
      var last: byte := 48 + n % 10;
      ValueOfDigits(p, n / 10, [last] + rest);
      assert Json.Digits(n) + rest == Json.Digits(n / 10) + ([last] + rest);
      assert ([last] + rest)[1..] == rest;
    }
  }

  // ---------- building a pointer ----------

  /** cJSONUtils_FindPointerFromObjectTo: depth first, the first match counts. */
  function PointerTo(v: Item, target: nat): Option<seq<byte>>
    decreases v
  {
    if v.id == target then Some([])
    else match v
      case Leaf(_) => None
      case Array(_, items) => InItems(items, 0, target)
      case Object(_, members) => InMembers(members, target)
  }

  function InItems(items: seq<Item>, index: nat, target: nat): Option<seq<byte>>
    decreases items
  {
    if items == [] then None
    else match PointerTo(items[0], target)
      case Some(p) => Some([SLASH] + Json.Digits(index) + p)
      case None => InItems(items[1..], index + 1, target)
  }

  function InMembers(members: seq<Member>, target: nat): Option<seq<byte>>
    decreases members
  {
    if members == [] then None
    else match PointerTo(members[0].item, target)
      case Some(p) => Some([SLASH] + Encode(members[0].key) + p)
      case None => InMembers(members[1..], target)
  }

  // ---------- following a pointer ----------

  /** The first member whose key the next token matches. */
  function FindMember(members: seq<Member>, p: seq<byte>): Option<Item> {
    if members == [] then None
    else if Matches(members[0].key, p) then Some(members[0].item)
    else FindMember(members[1..], p)
  }

  function Rest(p: seq<byte>): (r: seq<byte>)
    ensures |r| <= |p|
  {
    if p == [] || p[0] == SLASH then p else Rest(p[1..])
  }

  /** get_item_from_pointer, case-sensitive. */
  function GetItem(v: Item, p: seq<byte>): Option<Item>
    decreases |p|
  {
    if p == [] || p[0] != SLASH then Some(v)
    else
      var q := p[1..];
      match v
      case Leaf(_) => None
      case Array(_, items) =>
        (match Index(q)
         case None => None
         case Some(i) => if i < |items| then GetItem(items[i], Rest(q)) else None)
      case Object(_, members) =>
        (match FindMember(members, q)
         case None => None
         case Some(w) => GetItem(w, Rest(q)))
  }

  lemma FindStep(members: seq<Member>, k: nat, p: seq<byte>)
    requires k < |members|
    ensures FindMember(members[k..], p)
            == if Matches(members[k].key, p) then Some(members[k].item) else FindMember(members[k + 1..], p)
  {
    assert members[k..][1..] == members[k + 1..];
  }

  /** get_item_from_pointer as the source runs it. */
  method Follow(v: Item, pointer: seq<byte>) returns (found: Option<Item>)
    ensures found == GetItem(v, pointer)
  {
    hide Index, Matches;
    var current, p := v, pointer;
    while p != [] && p[0] == SLASH
      invariant GetItem(v, pointer) == GetItem(current, p)
      decreases |p|
    {
      p := p[1..];
      match current {
        case Leaf(_) => return None;
        case Array(_, items) =>
          var ok, index := DecodeIndex(p);
          if !ok || index >= |items| {
            return None;
          }
          assert GetItem(v, pointer) == GetItem(items[index], Rest(p));
          current := items[index];
        case Object(_, members) =>
          var k := 0;
          var same := false;
          assert members[0..] == members;
          while k < |members| && !same
            invariant k <= |members| && FindMember(members, p) == FindMember(members[k..], p)
            invariant same ==> k < |members| && Matches(members[k].key, p)
            decreases |members| - k, !same
          {
            FindStep(members, k, p);
            same := ComparePointers(members[k].key, p);
            if !same {
              k := k + 1;
            }
          }
          if k == |members| {
            return None;
          }
          FindStep(members, k, p);
          assert GetItem(v, pointer) == GetItem(members[k].item, Rest(p));
          current := members[k].item;
      }
      p := SkipToken(p);
    }
    found := Some(current);
  }

  method SkipToken(p: seq<byte>) returns (r: seq<byte>)
    ensures r == Rest(p)
  {
    r := p;
    while r != [] && r[0] != SLASH
      invariant Rest(r) == Rest(p)
      decreases |r|
    {
      r := r[1..];
    }
  }

  // ---------- the pointer that was built leads to the target ----------

  ghost predicate DistinctKeys(v: Item) {
    match v
    case Leaf(_) => true
    case Array(_, items) => forall i | 0 <= i < |items| :: DistinctKeys(items[i])
    case Object(_, members) =>
      && (forall i, j | 0 <= i < j < |members| :: members[i].key != members[j].key)
      && forall i | 0 <= i < |members| :: DistinctKeys(members[i].item)
  }

  ghost predicate Contains(v: Item, id: nat) {
    || v.id == id
    || match v
       case Leaf(_) => false
       case Array(_, items) => exists i | 0 <= i < |items| :: Contains(items[i], id)
       case Object(_, members) => exists i | 0 <= i < |members| :: Contains(members[i].item, id)
  }

  ghost predicate NoSlash(s: seq<byte>) {
    SLASH !in s
  }

  ghost predicate Starts(p: seq<byte>) {
    p == [] || p[0] == SLASH
  }

  /** A token is cut off where the rest of the pointer begins. */
  lemma {:induction false} TokenAndRest(t: seq<byte>, p: seq<byte>)
    requires NoSlash(t) && Starts(p)
    ensures Token(t + p) == t && Rest(t + p) == p
  {
    if t == [] {
      assert t + p == p;
    } else {
      assert (t + p)[1..] == t[1..] + p;
      TokenAndRest(t[1..], p);
    }
  }

  lemma {:induction false} EncodedHasNoSlash(s: seq<byte>)
    ensures NoSlash(Encode(s))
  {
    if s != [] {
      EncodedHasNoSlash(s[1..]);
    }
  }

  lemma {:induction false} EncodeInjective(a: seq<byte>, b: seq<byte>)
    requires Encode(a) == Encode(b)
    ensures a == b
  {
    hide EscapeByte;
    if a == [] || b == [] {
      if a != [] { EncodeStep(a); }
      if b != [] { EncodeStep(b); }
    } else {
      EncodeStep(a);
      EncodeStep(b);
      EscapedByte(a[0]);
      EscapedByte(b[0]);
      var x, y := EscapeByte(a[0]), EscapeByte(b[0]);
      var r, t := Encode(a[1..]), Encode(b[1..]);
      assert (x + r)[0] == x[0] && (y + t)[0] == y[0];
      HeadTail(x, r, y, t);
      EncodeInjective(a[1..], b[1..]);
      assert a == [a[0]] + a[1..] && b == [b[0]] + b[1..];
    }
  }

  /** The member found is the first with that key, so with distinct keys it is the one meant. */
  lemma {:induction false} MemberFound(members: seq<Member>, k: nat, p: seq<byte>)
    requires k < |members| && Starts(p)
    requires forall i, j | 0 <= i < j < |members| :: members[i].key != members[j].key
    ensures FindMember(members, Encode(members[k].key) + p) == Some(members[k].item)
  {
    FirstFound(members, k, p);
  }

  lemma {:induction false} FirstFound(members: seq<Member>, k: nat, p: seq<byte>)
    requires k < |members| && Starts(p)
    requires forall i | 0 <= i < k :: members[i].key != members[k].key
    ensures FindMember(members, Encode(members[k].key) + p) == Some(members[k].item)
    decreases |members|
  {
    var t := Encode(members[k].key);
    EncodedHasNoSlash(members[k].key);
    TokenAndRest(t, p);
    MatchesEncoded(members[0].key, t + p);
    if k > 0 {
      if Encode(members[0].key) == t {
        EncodeInjective(members[0].key, members[k].key);
      }
      FirstFound(members[1..], k - 1, p);
    }
  }

  // ---------- one step along any pointer ----------

  lemma FirstStep(t: seq<byte>, p: seq<byte>)
    requires NoSlash(t) && Starts(p)
    ensures var all := [SLASH] + t + p;
            all[0] == SLASH && all[1..] == t + p && Token(t + p) == t && Rest(t + p) == p
  {
    TokenAndRest(t, p);
    SlashOff(t, p);
  }

  /** The printed form of n leads to the element of that number; past the end it leads to nothing. */
  lemma ItemStep(id: nat, items: seq<Item>, n: nat, p: seq<byte>)
    requires Starts(p)
    ensures GetItem(Array(id, items), [SLASH] + Json.Digits(n) + p)
            == if n < |items| then GetItem(items[n], p) else None
  {
    hide Json.Digits, Index, Token, Rest;
    DigitsHaveNoSlash(n);
    FirstStep(Json.Digits(n), p);
    IndexReadsDigits(n, p);
  }

  /** A key leads to the first member that has it. */
  lemma MemberStep(id: nat, members: seq<Member>, k: nat, p: seq<byte>)
    requires k < |members| && Starts(p) && forall j | 0 <= j < k :: members[j].key != members[k].key
    ensures GetItem(Object(id, members), [SLASH] + Encode(members[k].key) + p) == GetItem(members[k].item, p)
  {
    hide Encode, FindMember, Token, Rest;
    EncodedHasNoSlash(members[k].key);
    FirstStep(Encode(members[k].key), p);
    FirstFound(members, k, p);
  }

  /** A token that is the escaped form of no key leads to nothing, nor does one behind a leaf or one that
      does not pass for an index. */
  lemma LeadsNowhere(v: Item, t: seq<byte>, p: seq<byte>)
    requires NoSlash(t) && Starts(p)
    requires match v
             case Leaf(_) => true
             case Array(_, _) => !PassesAsIndex(t)
             case Object(_, members) => forall k | 0 <= k < |members| :: Encode(members[k].key) != t
    ensures GetItem(v, [SLASH] + t + p) == None
  {
    hide Encode, FindMember, Token, Rest, Index, PassesAsIndex;
    FirstStep(t, p);
    IndexAccepts(t + p);
    if v.Object? {
      NoneFound(v.members, t + p);
    }
  }

  lemma {:induction false} NoneFound(members: seq<Member>, q: seq<byte>)
    requires forall k | 0 <= k < |members| :: Encode(members[k].key) != Token(q)
    ensures FindMember(members, q) == None
  {
    hide Encode, Token, Matches;
    if members != [] {
      MatchesEncoded(members[0].key, q);
      NoneFound(members[1..], q);
    }
  }

  /** How section 3 of RFC 6901 escapes: a/b, m~n and ~1 become a~1b, m~0n and ~01. */
  lemma EscapeSamples()
    ensures Encode([97, 47, 98]) == [97, 126, 49, 98]
    ensures Encode([109, 126, 110]) == [109, 126, 48, 110]
    ensures Encode([126, 49]) == [126, 48, 49]
  {
    assert [97, 47, 98][1..] == [47, 98] && [47, 98][1..] == [98] && [98][1..] == [];
    assert [109, 126, 110][1..] == [126, 110] && [126, 110][1..] == [110] && [110][1..] == [];
    assert [126, 49][1..] == [49] && [49][1..] == [];
    assert Encode([47, 98]) == [126, 49, 98] && Encode([126, 110]) == [126, 48, 110] && Encode([49]) == [49];
  }

  lemma {:induction false} DigitsHaveNoSlash(n: nat)
    ensures NoSlash(Json.Digits(n))
  {
  }

  /**
   In a tree with distinct sibling keys, whatever bytes they hold, the pointer built for an item
   leads to that item; one is built exactly for the items of the tree.
   */
  lemma {:induction false} PointerLeadsBack(v: Item, target: nat)
    requires DistinctKeys(v)
    ensures PointerTo(v, target).Some? <==> Contains(v, target)
    ensures var p := PointerTo(v, target);
            p.Some? ==>
              && Starts(p.value)
              && GetItem(v, p.value).Some? && GetItem(v, p.value).value.id == target
    decreases v, 0
  {
    hide Json.Digits, Matches, Encode, Index, FindMember;
    if v.id != target {
      match v
      case Leaf(_) =>
      case Array(_, items) =>
        var k := ItemsSearched(items, 0, target);
        if k < |items| {
          var p, d := PointerTo(items[k], target).value, Json.Digits(k);
          DigitsHaveNoSlash(k);
          IndexReadsDigits(k, p);
          TokenAndRest(d, p);
          SlashOff(d, p);
        }
      case Object(_, members) =>
        var k := MembersSearched(members, target);
        if k < |members| {
          var p, t := PointerTo(members[k].item, target).value, Encode(members[k].key);
          EncodedHasNoSlash(members[k].key);
          MemberFound(members, k, p);
          TokenAndRest(t, p);
          SlashOff(t, p);
        }
    }
  }

  lemma SlashOff(t: seq<byte>, p: seq<byte>)
    ensures ([SLASH] + t + p)[0] == SLASH && ([SLASH] + t + p)[1..] == t + p
  {
  }

  /** The search over an array's items stops at the first that holds the target. */
  lemma {:induction false} ItemsSearched(items: seq<Item>, index: nat, target: nat) returns (k: nat)
    requires forall i | 0 <= i < |items| :: DistinctKeys(items[i])
    ensures k <= |items|
    ensures k == |items| ==>
              InItems(items, index, target) == None && forall i | 0 <= i < |items| :: !Contains(items[i], target)
    ensures k < |items| ==>
              var p := PointerTo(items[k], target);
              && Contains(items[k], target) && p.Some? && Starts(p.value)
              && InItems(items, index, target) == Some([SLASH] + Json.Digits(index + k) + p.value)
              && GetItem(items[k], p.value).Some? && GetItem(items[k], p.value).value.id == target
    decreases items, 1
  {
    hide Json.Digits, GetItem, Contains, DistinctKeys, PointerTo;
    if items == [] {
      k := 0;
    } else {
      PointerLeadsBack(items[0], target);
      if PointerTo(items[0], target).Some? {
        k := 0;
      } else {
        k := ItemsSearched(items[1..], index + 1, target);
        k := k + 1;
      }
    }
  }

  lemma {:induction false} MembersSearched(members: seq<Member>, target: nat) returns (k: nat)
    requires forall i | 0 <= i < |members| :: DistinctKeys(members[i].item)
    ensures k <= |members|
    ensures k == |members| ==>
              InMembers(members, target) == None && forall i | 0 <= i < |members| :: !Contains(members[i].item, target)
    ensures k < |members| ==>
              var p := PointerTo(members[k].item, target);
              && Contains(members[k].item, target) && p.Some? && Starts(p.value)
              && InMembers(members, target) == Some([SLASH] + Encode(members[k].key) + p.value)
              && GetItem(members[k].item, p.value).Some? && GetItem(members[k].item, p.value).value.id == target
    decreases members, 1
  {
    hide Encode, GetItem, Contains, DistinctKeys, PointerTo;
    if members == [] {
      k := 0;
    } else {
      PointerLeadsBack(members[0].item, target);
      if PointerTo(members[0].item, target).Some? {
        k := 0;
      } else {
        k := MembersSearched(members[1..], target);
        k := k + 1;
      }
    }
  }

  // ---------- the builder in place ----------

  const ULONG_MAX := 0xFFFF_FFFF_FFFF_FFFF

  /** Arrays no longer than an index can count. */
  ghost predicate Indexable(v: Item) {
    match v
    case Leaf(_) => true
    case Array(_, items) => |items| <= ULONG_MAX && forall i | 0 <= i < |items| :: Indexable(items[i])
    case Object(_, members) => forall i | 0 <= i < |members| :: Indexable(members[i].item)
  }

  /** A C string in a buffer. */
  ghost predicate Holds(text: array<byte>, p: seq<byte>)
    reads text
  {
    |p| < text.Length && text[..|p| + 1] == p + [0]
  }

  method Store(dest: array<byte>, at: nat, s: seq<byte>)
    requires at + |s| <= dest.Length
    modifies dest
    ensures dest[..at + |s|] == old(dest[..at]) + s
  {
    var i := 0;
    while i < |s|
      invariant i <= |s| && dest[..at + i] == old(dest[..at]) + s[..i]
    {
      dest[at + i] := s[i];
      i := i + 1;
    }
  }

  /** "/<index><path>": twenty digits are enough for every index. */
  method IndexStep(index: nat, path: array<byte>, ghost p: seq<byte>) returns (full: array<byte>)
    requires index <= ULONG_MAX && Holds(path, p) && 0 !in p
    ensures fresh(full) && Holds(full, [SLASH] + Json.Digits(index) + p)
  {
    hide Json.Digits;
    IndexLength(index);
    var length := Strlen(path, p);
    full := new byte[length + 20 + 2](_ => 0);
    var digits := Json.Digits(index);
    full[0] := SLASH;
    assert full[..1] == [SLASH];
    Store(full, 1, digits);
    assert full[..1 + |digits|] == [SLASH] + digits;
    Store(full, 1 + |digits|, path[..length + 1]);
    assert full[..1 + |digits| + length + 1] == [SLASH] + digits + (p + [0]);
    assert [SLASH] + digits + (p + [0]) == [SLASH] + digits + p + [0];
  }

  lemma IndexLength(index: nat)
    requires index <= ULONG_MAX
    ensures |Json.Digits(index)| <= 20
  {
    hide Json.Digits;
    assert JsonRoundTrip.Power10(10) == 10000000000 by {
      assert JsonRoundTrip.Power10(5) == 100000;
    }
    assert JsonRoundTrip.Power10(15) == 1000000000000000;
    assert JsonRoundTrip.Power10(20) == 100000000000000000000;
    JsonRoundTrip.DigitsLength(index, 20);
  }

  method Strlen(text: array<byte>, ghost p: seq<byte>) returns (length: nat)
    requires Holds(text, p) && 0 !in p
    ensures length == |p|
  {
    length := 0;
    assert forall i | 0 <= i < |p| :: text[..|p| + 1][i] == p[i];
    assert text[..|p| + 1][|p|] == 0;
    while text[length] != 0
      invariant length <= |p|
      decreases |p| - length
    {
      length := length + 1;
    }
  }

  /** "/<escaped key><path>", in a buffer of exactly the size needed. */
  method KeyStep(key: seq<byte>, path: array<byte>, ghost p: seq<byte>) returns (full: array<byte>)
    requires Holds(path, p) && 0 !in p
    ensures fresh(full) && full.Length == |[SLASH] + Encode(key) + p| + 1 && Holds(full, [SLASH] + Encode(key) + p)
  {
    hide Encode;
    var length := Strlen(path, p);
    var escaped := EncodedLength(key);
    full := new byte[length + escaped + 2](_ => 0);
    full[0] := SLASH;
    assert full[..1] == [SLASH];
    EncodeInto(full, 1, key);
    ghost var head := [SLASH] + Encode(key);
    assert full[..1 + escaped] == head;
    Store(full, 1 + escaped, path[..length + 1]);
    assert full[..1 + escaped + length + 1] == head + (p + [0]);
    assert head + (p + [0]) == head + p + [0];
  }

  ghost predicate CKeys(v: Item) {
    match v
    case Leaf(_) => true
    case Array(_, items) => forall i | 0 <= i < |items| :: CKeys(items[i])
    case Object(_, members) => forall i | 0 <= i < |members| :: 0 !in members[i].key && CKeys(members[i].item)
  }

  lemma {:induction false} EncodeHasNoNul(s: seq<byte>)
    requires 0 !in s
    ensures 0 !in Encode(s)
  {
    if s != [] {
      EncodeHasNoNul(s[1..]);
    }
  }

  /** cJSONUtils_FindPointerFromObjectTo, in the buffers it allocates. */
  method FindPointer(v: Item, target: nat) returns (found: bool, text: array<byte>)
    requires Indexable(v) && CKeys(v)
    ensures fresh(text) && found == PointerTo(v, target).Some?
    ensures found ==> 0 !in PointerTo(v, target).value && Holds(text, PointerTo(v, target).value)
    decreases v
  {
    hide Encode, Json.Digits;
    text := new byte[1](_ => 0);
    if v.id == target {
      return true, text;
    }
    found := false;
    match v {
      case Leaf(_) =>
      case Array(_, items) =>
        var i := 0;
        assert items[0..] == items;
        while i < |items|
          invariant i <= |items| && fresh(text) && PointerTo(v, target) == InItems(items[i..], i, target)
        {
          assert items[i..][1..] == items[i + 1..];
          var inside, path := FindPointer(items[i], target);
          if inside {
            ghost var p := PointerTo(items[i], target).value;
            assert 0 !in Json.Digits(i);
            text := IndexStep(i, path, p);
            return true, text;
          }
          i := i + 1;
        }
      case Object(_, members) =>
        var i := 0;
        assert members[0..] == members;
        while i < |members|
          invariant i <= |members| && fresh(text) && PointerTo(v, target) == InMembers(members[i..], target)
        {
          assert members[i..][1..] == members[i + 1..];
          var inside, path := FindPointer(members[i].item, target);
          if inside {
            ghost var p := PointerTo(members[i].item, target).value;
            EncodeHasNoNul(members[i].key);
            text := KeyStep(members[i].key, path, p);
            return true, text;
          }
          i := i + 1;
        }
    }
  }
}
