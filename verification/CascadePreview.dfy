/**
 The cascade preview, its signature, and the interrupt that is only carried
 out when the signature still holds.
 */
module CascadePreview {
  import opened Prelude
  import opened CascadeWalk
  import CascadeExact
  import RL = RequestLifecycle
  import Sorting
  import Text

  // ----- buckets

  /** The rows of one classification, in walk order. */
  function Bucket(rows: seq<Row>, c: Classification): seq<Row>
  {
    if rows == [] then []
    else
      var front := Bucket(rows[..|rows| - 1], c);
      var row := rows[|rows| - 1];
      if row.classification == c then front + [row] else front
  }

  function StateText(state: Option<RL.State>): Option<string>
  {
    if state.Some? then Some(RL.AsStr(state.value)) else None
  }

  datatype SignatureRow = SignatureRow(
    id: Id,
    state: Option<string>,
    awaitMode: Option<string>,
    cancelPolicy: Option<string>,
    parentCall: Option<string>)

  datatype SignatureInput = SignatureInput(
    root: Id,
    rootState: Option<string>,
    rootLatch: Option<string>,
    affected: seq<SignatureRow>)

  function Signed(row: Row): SignatureRow
  {
    SignatureRow(row.id, StateText(row.state), row.awaitMode, row.cancelPolicy, row.parentCall)
  }

  function SignedRows(rows: seq<Row>): seq<SignatureRow>
  {
    seq(|rows|, i requires 0 <= i < |rows| => Signed(rows[i]))
  }

  datatype Preview = Preview(
    root: Id,
    signature: string,
    rootState: Option<string>,
    willInterrupt: seq<Row>,
    willDetach: seq<Row>,
    alreadyTerminal: seq<Row>,
    unknownPolicy: seq<Row>)

  function InputOf(root: Id, walked: WalkResult): SignatureInput
  {
    SignatureInput(root, StateText(walked.rootState), walked.rootInterruptRequestedAt, SignedRows(walked.rows))
  }

  /** `hash` stands for the digest of the signature text. */
  function PreviewOf(root: Id, walked: WalkResult, hash: string -> string): Preview
  {
    Preview(root, hash(SignatureText(InputOf(root, walked))), StateText(walked.rootState),
            Bucket(walked.rows, WillInterrupt), Bucket(walked.rows, WillDetach),
            Bucket(walked.rows, AlreadyTerminal), Bucket(walked.rows, UnknownPolicy))
  }

  method BuildPreview(snap: Snapshot, root: Id, agentDid: Option<string>, includeTerminal: bool, hash: string -> string)
    returns (r: Result<Preview, WalkError>)
    ensures match Walk(snap, root, agentDid, includeTerminal)
            case Err(e) => r == Err(e)
            case Ok(walked) => r == Ok(PreviewOf(root, walked, hash))
  {
    var walk := RunWalk(snap, root, agentDid, includeTerminal);
    if walk.Err? {
      return Err(walk.error);
    }
    var rows := walk.value.rows;
    var willInterrupt, willDetach, alreadyTerminal, unknownPolicy := [], [], [], [];
    var signed: seq<SignatureRow> := [];
    for i := 0 to |rows|
      invariant willInterrupt == Bucket(rows[..i], WillInterrupt) && willDetach == Bucket(rows[..i], WillDetach)
      invariant alreadyTerminal == Bucket(rows[..i], AlreadyTerminal) && unknownPolicy == Bucket(rows[..i], UnknownPolicy)
      invariant signed == SignedRows(rows[..i])
    {
      assert rows[..i + 1][..i] == rows[..i];
      assert SignedRows(rows[..i + 1]) == SignedRows(rows[..i]) + [Signed(rows[i])];
      signed := signed + [Signed(rows[i])];
      match rows[i].classification
      case WillInterrupt => willInterrupt := willInterrupt + [rows[i]];
      case WillDetach => willDetach := willDetach + [rows[i]];
      case AlreadyTerminal => alreadyTerminal := alreadyTerminal + [rows[i]];
      case UnknownPolicy => unknownPolicy := unknownPolicy + [rows[i]];
    }
    assert rows[..|rows|] == rows;
    var input := SignatureInput(root, StateText(walk.value.rootState), walk.value.rootInterruptRequestedAt, signed);
    return Ok(Preview(root, hash(SignatureText(input)), StateText(walk.value.rootState),
                      willInterrupt, willDetach, alreadyTerminal, unknownPolicy));
  }

  /** The four buckets partition the rows. */
  lemma {:induction false} BucketsPartition(rows: seq<Row>)
    ensures multiset(Bucket(rows, WillInterrupt)) + multiset(Bucket(rows, WillDetach))
          + multiset(Bucket(rows, AlreadyTerminal)) + multiset(Bucket(rows, UnknownPolicy)) == multiset(rows)
  {
    if rows != [] {
      var front, row := rows[..|rows| - 1], rows[|rows| - 1];
      hide In;
      BucketsPartition(front);
      BucketSnoc(rows, WillInterrupt);
      BucketSnoc(rows, WillDetach);
      BucketSnoc(rows, AlreadyTerminal);
      BucketSnoc(rows, UnknownPolicy);
      hide Bucket;
      assert rows == front + [row];
      assert multiset(rows) == multiset(front) + multiset{row};
      OneOfFour(row);
      FourSums(multiset(Bucket(front, WillInterrupt)), multiset(Bucket(front, WillDetach)),
               multiset(Bucket(front, AlreadyTerminal)), multiset(Bucket(front, UnknownPolicy)),
               In(row, WillInterrupt), In(row, WillDetach), In(row, AlreadyTerminal), In(row, UnknownPolicy));
    }
  }

  lemma {:induction false} FourSums<T>(a: multiset<T>, b: multiset<T>, c: multiset<T>, d: multiset<T>,
                                       e: multiset<T>, f: multiset<T>, g: multiset<T>, h: multiset<T>)
    ensures (a + e) + (b + f) + (c + g) + (d + h) == (a + b + c + d) + (e + f + g + h)
  {
  }

  lemma {:induction false} OneOfFour(row: Row)
    ensures In(row, WillInterrupt) + In(row, WillDetach) + In(row, AlreadyTerminal) + In(row, UnknownPolicy) == multiset{row}
  {
  }

  /** The row, if it is of the class. */
  function In(row: Row, c: Classification): multiset<Row>
  {
    if row.classification == c then multiset{row} else multiset{}
  }

  lemma {:induction false} BucketSnoc(rows: seq<Row>, c: Classification)
    requires rows != []
    ensures var front, row := rows[..|rows| - 1], rows[|rows| - 1];
            multiset(Bucket(rows, c)) ==
            multiset(Bucket(front, c)) + In(row, c)
  {
  }

  lemma {:induction false} BucketMembers(rows: seq<Row>, c: Classification, row: Row)
    ensures row in Bucket(rows, c) <==> row in rows && row.classification == c
  {
    if rows != [] {
      BucketMembers(rows[..|rows| - 1], c, row);
      assert rows == rows[..|rows| - 1] + [rows[|rows| - 1]];
    }
  }

  /** What a preview lists, without its buckets: in walk order, each row of the walk
      under its own class. */
  lemma {:induction false} PreviewLists(root: Id, walked: WalkResult, hash: string -> string, row: Row)
    ensures var p := PreviewOf(root, walked, hash);
            && p.root == root && p.rootState == StateText(walked.rootState)
            && (row in p.willInterrupt <==> row in walked.rows && row.classification == WillInterrupt)
            && (row in p.willDetach <==> row in walked.rows && row.classification == WillDetach)
            && (row in p.alreadyTerminal <==> row in walked.rows && row.classification == AlreadyTerminal)
            && (row in p.unknownPolicy <==> row in walked.rows && row.classification == UnknownPolicy)
  {
    BucketMembers(walked.rows, WillInterrupt, row);
    BucketMembers(walked.rows, WillDetach, row);
    BucketMembers(walked.rows, AlreadyTerminal, row);
    BucketMembers(walked.rows, UnknownPolicy, row);
  }

  // ----- the signature text

  const UNIT := '\U{001F}'
  const RECORD := '\U{001E}'
  const GROUP := '\U{001D}'

  function OrEmpty(value: Option<string>): string
  {
    if value.Some? then value.value else ""
  }

  function RowText(row: SignatureRow): string
  {
    row.id + [GROUP] + (OrEmpty(row.state) + [GROUP] + (OrEmpty(row.awaitMode) + [GROUP]
    + (OrEmpty(row.cancelPolicy) + [GROUP] + OrEmpty(row.parentCall))))
  }

  function JoinRows(rows: seq<SignatureRow>): string
  {
    if rows == [] then ""
    else if |rows| == 1 then RowText(rows[0])
    else RowText(rows[0]) + [UNIT] + JoinRows(rows[1..])
  }

  function RowId(row: SignatureRow): string { row.id }

  /** The rows sorted by id, equal ids in their given order. */
  function SortById(rows: seq<SignatureRow>): seq<SignatureRow>
  {
    Sorting.SortBy(RowId, rows)
  }

  /** The bytes the digest is taken of. */
  function SignatureText(input: SignatureInput): string
  {
    input.root + [UNIT] + (OrEmpty(input.rootState) + [UNIT] + (OrEmpty(input.rootLatch) + [RECORD]
    + JoinRows(SortById(input.affected))))
  }

  predicate NoSeparator(s: string)
  {
    UNIT !in s && RECORD !in s && GROUP !in s
  }

  /** A column as the walk delivers it: absent, or not empty. */
  predicate Present(value: Option<string>)
  {
    value.Some? ==> value.value != ""
  }

  predicate PresentRow(row: SignatureRow)
  {
    Present(row.state) && Present(row.awaitMode) && Present(row.cancelPolicy) && Present(row.parentCall)
  }

  predicate PresentRows(rows: seq<SignatureRow>)
  {
    forall i | 0 <= i < |rows| :: PresentRow(rows[i])
  }

  predicate PresentInput(input: SignatureInput)
  {
    Present(input.rootState) && Present(input.rootLatch) && PresentRows(input.affected)
  }

  predicate PlainRow(row: SignatureRow)
  {
    && NoSeparator(row.id) && NoSeparator(OrEmpty(row.state)) && NoSeparator(OrEmpty(row.awaitMode))
    && NoSeparator(OrEmpty(row.cancelPolicy)) && NoSeparator(OrEmpty(row.parentCall))
  }

  predicate PlainRows(rows: seq<SignatureRow>)
  {
    forall i | 0 <= i < |rows| :: PlainRow(rows[i])
  }

  /** No column contains a separator. */
  predicate PlainInput(input: SignatureInput)
  {
    && NoSeparator(input.root) && NoSeparator(OrEmpty(input.rootState)) && NoSeparator(OrEmpty(input.rootLatch))
    && PlainRows(input.affected)
  }

  lemma {:induction false} OrEmptyInjective(a: Option<string>, b: Option<string>)
    requires Present(a) && Present(b) && OrEmpty(a) == OrEmpty(b)
    ensures a == b
  {
  }

  lemma {:induction false} RowTextInjective(a: SignatureRow, b: SignatureRow)
    requires PlainRow(a) && PlainRow(b) && PresentRow(a) && PresentRow(b) && RowText(a) == RowText(b)
    ensures a == b
  {
    var a4, b4 := OrEmpty(a.parentCall), OrEmpty(b.parentCall);
    var a3, b3 := OrEmpty(a.cancelPolicy) + [GROUP] + a4, OrEmpty(b.cancelPolicy) + [GROUP] + b4;
    var a2, b2 := OrEmpty(a.awaitMode) + [GROUP] + a3, OrEmpty(b.awaitMode) + [GROUP] + b3;
    var a1, b1 := OrEmpty(a.state) + [GROUP] + a2, OrEmpty(b.state) + [GROUP] + b2;
    Text.CutOnce(a.id, b.id, a1, b1, GROUP);
    Text.CutOnce(OrEmpty(a.state), OrEmpty(b.state), a2, b2, GROUP);
    Text.CutOnce(OrEmpty(a.awaitMode), OrEmpty(b.awaitMode), a3, b3, GROUP);
    Text.CutOnce(OrEmpty(a.cancelPolicy), OrEmpty(b.cancelPolicy), a4, b4, GROUP);
    OrEmptyInjective(a.state, b.state);
    OrEmptyInjective(a.awaitMode, b.awaitMode);
    OrEmptyInjective(a.cancelPolicy, b.cancelPolicy);
    OrEmptyInjective(a.parentCall, b.parentCall);
  }

  lemma {:induction false} RowTextShape(row: SignatureRow)
    requires PlainRow(row)
    ensures UNIT !in RowText(row) && RowText(row) != ""
  {
  }

  lemma {:induction false} JoinRowsInjective(a: seq<SignatureRow>, b: seq<SignatureRow>)
    requires PlainRows(a) && PlainRows(b) && PresentRows(a) && PresentRows(b) && JoinRows(a) == JoinRows(b)
    ensures a == b
  {
    JoinRowsShape(a);
    JoinRowsShape(b);
    if |a| == 1 && |b| == 1 {
      RowTextInjective(a[0], b[0]);
    } else if |a| > 1 && |b| > 1 {
      RowTextShape(a[0]);
      RowTextShape(b[0]);
      Text.CutOnce(RowText(a[0]), RowText(b[0]), JoinRows(a[1..]), JoinRows(b[1..]), UNIT);
      RowTextInjective(a[0], b[0]);
      JoinRowsInjective(a[1..], b[1..]);
      assert a == [a[0]] + a[1..] && b == [b[0]] + b[1..];
    }
  }

  /** The joined text tells whether there are no rows, one, or more. */
  lemma {:induction false} JoinRowsShape(rows: seq<SignatureRow>)
    requires PlainRows(rows)
    ensures rows == [] <==> JoinRows(rows) == ""
    ensures |rows| > 1 <==> UNIT in JoinRows(rows)
  {
    if rows != [] {
      RowTextShape(rows[0]);
      if |rows| > 1 {
        assert JoinRows(rows)[|RowText(rows[0])|] == UNIT;
      }
    }
  }

  lemma {:induction false} SortKeepsMembers(rows: seq<SignatureRow>, row: SignatureRow)
    ensures row in SortById(rows) <==> row in rows
    ensures |SortById(rows)| == |rows|
  {
    Sorting.SortBySorts(RowId, rows);
    assert row in multiset(SortById(rows)) <==> row in multiset(rows);
    assert |SortById(rows)| == |multiset(SortById(rows))| == |multiset(rows)| == |rows|;
  }

  lemma {:induction false} SortKeepsShape(rows: seq<SignatureRow>)
    ensures PlainRows(SortById(rows)) <==> PlainRows(rows)
    ensures PresentRows(rows) ==> PresentRows(SortById(rows))
    ensures |SortById(rows)| == |rows|
  {
    var sorted := SortById(rows);
    forall row ensures row in sorted <==> row in rows {
      SortKeepsMembers(rows, row);
    }
    SortKeepsMembers(rows, SignatureRow("", None, None, None, None));
    hide PlainRow, PresentRow, SortById;
    assert forall i | 0 <= i < |sorted| :: sorted[i] in rows;
    assert forall i | 0 <= i < |rows| :: rows[i] in sorted;
  }

  /** What a signature text says of the root and, in any order, of the rows. */
  ghost predicate SameUpToOrder(a: SignatureInput, b: SignatureInput)
  {
    && a.root == b.root && a.rootState == b.rootState && a.rootLatch == b.rootLatch
    && multiset(a.affected) == multiset(b.affected)
  }

  /** Without separators in the columns, the text determines the rows up to their order. */
  lemma {:induction false} TextTellsRows(a: SignatureInput, b: SignatureInput)
    requires PlainInput(a) && PlainInput(b) && SignatureText(a) == SignatureText(b)
    requires PresentRows(a.affected) && PresentRows(b.affected)
    ensures a.root == b.root && OrEmpty(a.rootState) == OrEmpty(b.rootState) && OrEmpty(a.rootLatch) == OrEmpty(b.rootLatch)
    ensures multiset(a.affected) == multiset(b.affected)
  {
    hide PlainRows, PresentRows, SortById, JoinRows;
    var aRows, bRows := JoinRows(SortById(a.affected)), JoinRows(SortById(b.affected));
    var a2, b2 := OrEmpty(a.rootLatch) + [RECORD] + aRows, OrEmpty(b.rootLatch) + [RECORD] + bRows;
    var a1, b1 := OrEmpty(a.rootState) + [UNIT] + a2, OrEmpty(b.rootState) + [UNIT] + b2;
    Text.CutOnce(a.root, b.root, a1, b1, UNIT);
    Text.CutOnce(OrEmpty(a.rootState), OrEmpty(b.rootState), a2, b2, UNIT);
    Text.CutOnce(OrEmpty(a.rootLatch), OrEmpty(b.rootLatch), aRows, bRows, RECORD);
    SortKeepsShape(a.affected);
    SortKeepsShape(b.affected);
    JoinRowsInjective(SortById(a.affected), SortById(b.affected));
    SortedTellsRows(a.affected, b.affected);
  }

  lemma {:induction false} SortedTellsRows(a: seq<SignatureRow>, b: seq<SignatureRow>)
    requires SortById(a) == SortById(b)
    ensures multiset(a) == multiset(b)
  {
    Sorting.SortBySorts(RowId, a);
    Sorting.SortBySorts(RowId, b);
  }

  // ----- separators in the columns

  /** How many separators a text contains. */
  function Separators(s: string): nat
  {
    multiset(s)[UNIT] + multiset(s)[RECORD] + multiset(s)[GROUP]
  }

  lemma {:induction false} SeparatorsOfBoth(a: string, b: string)
    ensures Separators(a + b) == Separators(a) + Separators(b)
  {
  }

  lemma {:induction false} SeparatorsOfJoin(a: string, c: char, b: string)
    requires c == UNIT || c == RECORD || c == GROUP
    ensures Separators(a + [c] + b) == Separators(a) + 1 + Separators(b)
  {
    SeparatorsOfBoth(a, [c]);
    SeparatorsOfBoth(a + [c], b);
    assert multiset([c]) == multiset{c};
  }

  lemma {:induction false} NoneIsPlain(s: string)
    ensures Separators(s) == 0 <==> NoSeparator(s)
  {
    assert UNIT in s <==> UNIT in multiset(s);
    assert RECORD in s <==> RECORD in multiset(s);
    assert GROUP in s <==> GROUP in multiset(s);
  }

  /** The separators inside the columns of a row. */
  function Stray(row: SignatureRow): nat
  {
    Separators(row.id) + Separators(OrEmpty(row.state)) + Separators(OrEmpty(row.awaitMode))
    + Separators(OrEmpty(row.cancelPolicy)) + Separators(OrEmpty(row.parentCall))
  }

  function StrayRows(rows: seq<SignatureRow>): nat
  {
    if rows == [] then 0 else Stray(rows[0]) + StrayRows(rows[1..])
  }

  lemma {:induction false} RowSeparators(row: SignatureRow)
    ensures Separators(RowText(row)) == 4 + Stray(row)
    ensures Stray(row) == 0 <==> PlainRow(row)
  {
    var r4 := OrEmpty(row.parentCall);
    var r3 := OrEmpty(row.cancelPolicy) + [GROUP] + r4;
    var r2 := OrEmpty(row.awaitMode) + [GROUP] + r3;
    var r1 := OrEmpty(row.state) + [GROUP] + r2;
    hide Separators, NoSeparator;
    SeparatorsOfJoin(OrEmpty(row.cancelPolicy), GROUP, r4);
    SeparatorsOfJoin(OrEmpty(row.awaitMode), GROUP, r3);
    SeparatorsOfJoin(OrEmpty(row.state), GROUP, r2);
    SeparatorsOfJoin(row.id, GROUP, r1);
    NoneIsPlain(row.id);
    NoneIsPlain(OrEmpty(row.state));
    NoneIsPlain(OrEmpty(row.awaitMode));
    NoneIsPlain(OrEmpty(row.cancelPolicy));
    NoneIsPlain(OrEmpty(row.parentCall));
  }

  lemma {:induction false} JoinSeparators(rows: seq<SignatureRow>)
    ensures Separators(JoinRows(rows)) == StrayRows(rows) + if rows == [] then 0 else 5 * |rows| - 1
    ensures StrayRows(rows) == 0 <==> PlainRows(rows)
  {
    hide Separators, Stray, PlainRow, RowText;
    if rows == [] {
      assert Separators("") == 0 by { NoneIsPlain(""); }
    } else {
      RowSeparators(rows[0]);
      JoinSeparators(rows[1..]);
      assert PlainRows(rows) <==> PlainRow(rows[0]) && PlainRows(rows[1..]);
      if |rows| > 1 {
        SeparatorsOfJoin(RowText(rows[0]), UNIT, JoinRows(rows[1..]));
      } else {
        assert StrayRows(rows[1..]) == 0;
      }
    }
  }

  /** The separators inside the columns of the root. */
  function StrayRoot(input: SignatureInput): nat
  {
    Separators(input.root) + Separators(OrEmpty(input.rootState)) + Separators(OrEmpty(input.rootLatch))
  }

  lemma {:induction false} TextSeparators(input: SignatureInput)
    ensures var rows := SortById(input.affected);
            Separators(SignatureText(input)) == 3 + StrayRoot(input) + Separators(JoinRows(rows))
  {
    hide Separators, JoinRows, SortById;
    var i3 := JoinRows(SortById(input.affected));
    var i2 := OrEmpty(input.rootLatch) + [RECORD] + i3;
    var i1 := OrEmpty(input.rootState) + [UNIT] + i2;
    SeparatorsOfJoin(OrEmpty(input.rootLatch), RECORD, i3);
    SeparatorsOfJoin(OrEmpty(input.rootState), UNIT, i2);
    SeparatorsOfJoin(input.root, UNIT, i1);
  }

  lemma {:induction false} PlainHasNoStray(input: SignatureInput)
    ensures PlainInput(input) <==> StrayRoot(input) == 0 && StrayRows(SortById(input.affected)) == 0
  {
    NoneIsPlain(input.root);
    NoneIsPlain(OrEmpty(input.rootState));
    NoneIsPlain(OrEmpty(input.rootLatch));
    hide Separators, NoSeparator, PlainRows, SortById, JoinRows;
    JoinSeparators(SortById(input.affected));
    SortKeepsShape(input.affected);
  }

  /** A text is forged only with another number of rows: an input with the text and
      the number of rows of one without separators has none either. */
  lemma {:induction false} SameCountIsPlain(a: SignatureInput, b: SignatureInput)
    requires PlainInput(a) && SignatureText(a) == SignatureText(b) && |a.affected| == |b.affected|
    ensures PlainInput(b)
  {
    hide Separators, PlainInput, SignatureText, JoinRows, SortById, StrayRoot, StrayRows, PlainRows;
    TextSeparators(a);
    TextSeparators(b);
    JoinSeparators(SortById(a.affected));
    JoinSeparators(SortById(b.affected));
    SortKeepsShape(a.affected);
    SortKeepsShape(b.affected);
    PlainHasNoStray(a);
    PlainHasNoStray(b);
  }

  /** Exactly when a signature text vouches for what it signs.  If one of two inputs
      with the same text has no separator in its columns, they are the same up to
      the order of the rows exactly when they have the same number of rows. */
  lemma {:induction false} SignatureTextInjective(a: SignatureInput, b: SignatureInput)
    requires PlainInput(a) && SignatureText(a) == SignatureText(b)
    requires PresentInput(a) && PresentInput(b)
    ensures SameUpToOrder(a, b) <==> |a.affected| == |b.affected|
  {
    if |a.affected| == |b.affected| {
      SameCountIsPlain(a, b);
      TextTellsRows(a, b);
      OrEmptyInjective(a.rootState, b.rootState);
      OrEmptyInjective(a.rootLatch, b.rootLatch);
    } else {
      assert |a.affected| == |multiset(a.affected)| && |b.affected| == |multiset(b.affected)|;
    }
  }

  // ----- what a signature vouches for

  /** Walk rows carry the classification of their own columns. */
  predicate SelfClassified(rows: seq<Row>)
  {
    forall i | 0 <= i < |rows| :: rows[i].classification == Classify(rows[i].state, rows[i].cancelPolicy)
  }

  lemma {:induction false} WalkedIsSelfClassified(snap: Snapshot, root: Id, agentDid: Option<string>, t: bool)
    requires Walk(snap, root, agentDid, t).Ok?
    ensures SelfClassified(Walk(snap, root, agentDid, t).value.rows)
  {
    CascadeExact.WalkIsExact(snap, root, agentDid, t);
    var rows := Walk(snap, root, agentDid, t).value.rows;
    forall i | 0 <= i < |rows| ensures rows[i].classification == Classify(rows[i].state, rows[i].cancelPolicy) {
      assert FromCall(snap, rows[i]);
    }
  }

  /** The columns a walk delivers are absent or not empty. */
  lemma {:induction false} WalkedIsPresent(snap: Snapshot, root: Id, agentDid: Option<string>, t: bool)
    requires Walk(snap, root, agentDid, t).Ok?
    ensures PresentRows(SignedRows(Walk(snap, root, agentDid, t).value.rows))
  {
    CascadeExact.WalkIsExact(snap, root, agentDid, t);
    var rows := Walk(snap, root, agentDid, t).value.rows;
    hide Walk, FromCall, PresentRow, Signed;
    forall i | 0 <= i < |rows| ensures PresentRow(SignedRows(rows)[i]) {
      assert FromCall(snap, rows[i]);
      RowIsPresent(snap, rows[i]);
    }
  }

  lemma {:induction false} RowIsPresent(snap: Snapshot, row: Row)
    requires FromCall(snap, row)
    ensures PresentRow(Signed(row))
  {
    hide Classify, Child;
    assert row.state.Some? ==> |RL.AsStr(row.state.value)| > 0;
  }

  lemma {:induction false} SignedDecides(a: Row, b: Row)
    requires Signed(a) == Signed(b)
    requires a.classification == Classify(a.state, a.cancelPolicy) && b.classification == Classify(b.state, b.cancelPolicy)
    ensures a.id == b.id && a.classification == b.classification
  {
    if a.state.Some? && b.state.Some? {
      RL.ParseInvertsAsStr(RL.AsStr(a.state.value), a.state.value);
      RL.ParseInvertsAsStr(RL.AsStr(b.state.value), b.state.value);
    }
  }

  function IdList(rows: seq<Row>): seq<Id>
  {
    seq(|rows|, i requires 0 <= i < |rows| => rows[i].id)
  }

  lemma {:induction false} IdListSnoc(rows: seq<Row>, row: Row)
    ensures IdList(rows + [row]) == IdList(rows) + [row.id]
  {
  }

  /** Equal signature inputs force equal lists of requests to interrupt. */
  lemma {:induction false} SameInputSameTargets(a: seq<Row>, b: seq<Row>)
    requires SelfClassified(a) && SelfClassified(b) && SignedRows(a) == SignedRows(b)
    ensures IdList(Bucket(a, WillInterrupt)) == IdList(Bucket(b, WillInterrupt))
  {
    assert |a| == |SignedRows(a)| == |b|;
    if a != [] {
      var n := |a| - 1;
      assert SignedRows(a)[n] == Signed(a[n]) && SignedRows(b)[n] == Signed(b[n]);
      assert SignedRows(a[..n]) == SignedRows(a)[..n] && SignedRows(b[..n]) == SignedRows(b)[..n];
      SignedDecides(a[n], b[n]);
      SameInputSameTargets(a[..n], b[..n]);
      IdListSnoc(Bucket(a[..n], WillInterrupt), a[n]);
      IdListSnoc(Bucket(b[..n], WillInterrupt), b[n]);
    }
  }

  /** Equal signature texts force the same set of requests to interrupt, when one
      input has no separator in its columns and the other as many rows. */
  lemma {:induction false} SameTextSameTargets(a: SignatureInput, b: SignatureInput, aRows: seq<Row>, bRows: seq<Row>, id: Id)
    requires PlainInput(a) && SignatureText(a) == SignatureText(b) && |aRows| == |bRows|
    requires a.affected == SignedRows(aRows) && b.affected == SignedRows(bRows)
    requires PresentRows(a.affected) && PresentRows(b.affected)
    requires SelfClassified(aRows) && SelfClassified(bRows)
    ensures CascadeExact.Marked(aRows, id) <==> CascadeExact.Marked(bRows, id)
  {
    SameCountIsPlain(a, b);
    TextTellsRows(a, b);
    if CascadeExact.Marked(aRows, id) {
      MarkedCarries(aRows, bRows, id);
    }
    if CascadeExact.Marked(bRows, id) {
      MarkedCarries(bRows, aRows, id);
    }
  }

  lemma {:induction false} MarkedCarries(a: seq<Row>, b: seq<Row>, id: Id)
    requires SelfClassified(a) && SelfClassified(b) && multiset(SignedRows(a)) == multiset(SignedRows(b))
    requires CascadeExact.Marked(a, id)
    ensures CascadeExact.Marked(b, id)
  {
    var i :| 0 <= i < |a| && a[i].id == id && a[i].classification.WillInterrupt?;
    assert SignedRows(a)[i] == Signed(a[i]);
    assert Signed(a[i]) in multiset(SignedRows(a));
    assert Signed(a[i]) in SignedRows(b);
    var j :| 0 <= j < |SignedRows(b)| && SignedRows(b)[j] == Signed(a[i]);
    SignedDecides(a[i], b[j]);
  }

  /** Two walks with the same signature text mark the same requests, when the
      columns of one contain no separator and the other has as many rows. */
  lemma {:induction false} SameTextSameMarks(
      a: Snapshot, b: Snapshot, root: Id, aDid: Option<string>, bDid: Option<string>, aAll: bool, bAll: bool, id: Id)
    requires Walk(a, root, aDid, aAll).Ok? && Walk(b, root, bDid, bAll).Ok?
    requires var x, y := Walk(a, root, aDid, aAll).value, Walk(b, root, bDid, bAll).value;
             && PlainInput(InputOf(root, x)) && |x.rows| == |y.rows|
             && SignatureText(InputOf(root, x)) == SignatureText(InputOf(root, y))
    ensures CascadeExact.Marked(Walk(a, root, aDid, aAll).value.rows, id)
       <==> CascadeExact.Marked(Walk(b, root, bDid, bAll).value.rows, id)
    ensures a.requests[root].state == b.requests[root].state
    ensures OrEmpty(a.requests[root].interruptRequestedAt) == OrEmpty(b.requests[root].interruptRequestedAt)
  {
    SameTextSameRoot(a, b, root, aDid, bDid, aAll, bAll);
    hide Walk, PlainInput, PresentRows, SelfClassified, SignatureText;
    WalkedIsSelfClassified(a, root, aDid, aAll);
    WalkedIsSelfClassified(b, root, bDid, bAll);
    WalkedIsPresent(a, root, aDid, aAll);
    WalkedIsPresent(b, root, bDid, bAll);
    var x, y := Walk(a, root, aDid, aAll).value, Walk(b, root, bDid, bAll).value;
    SameTextSameTargets(InputOf(root, x), InputOf(root, y), x.rows, y.rows, id);
  }

  /** A signature vouches for the signed columns of every row. */
  lemma {:induction false} SameTextSameColumns(
      a: Snapshot, b: Snapshot, root: Id, aDid: Option<string>, bDid: Option<string>, aAll: bool, bAll: bool, i: nat)
      returns (j: nat)
    requires Walk(a, root, aDid, aAll).Ok? && Walk(b, root, bDid, bAll).Ok?
    requires var x, y := Walk(a, root, aDid, aAll).value, Walk(b, root, bDid, bAll).value;
             && PlainInput(InputOf(root, x)) && |x.rows| == |y.rows| && i < |x.rows|
             && SignatureText(InputOf(root, x)) == SignatureText(InputOf(root, y))
    ensures var x, y := Walk(a, root, aDid, aAll).value, Walk(b, root, bDid, bAll).value;
            && j < |y.rows|
            && x.rows[i].id == y.rows[j].id && x.rows[i].state == y.rows[j].state
            && x.rows[i].awaitMode == y.rows[j].awaitMode && x.rows[i].cancelPolicy == y.rows[j].cancelPolicy
            && x.rows[i].parentCall == y.rows[j].parentCall
  {
    var x, y := Walk(a, root, aDid, aAll).value, Walk(b, root, bDid, bAll).value;
    WalkedIsPresent(a, root, aDid, aAll);
    WalkedIsPresent(b, root, bDid, bAll);
    hide Walk, PlainInput, PresentRows, SignatureText;
    SameCountIsPlain(InputOf(root, x), InputOf(root, y));
    TextTellsRows(InputOf(root, x), InputOf(root, y));
    assert SignedRows(x.rows)[i] == Signed(x.rows[i]) && Signed(x.rows[i]) in multiset(SignedRows(x.rows));
    assert Signed(x.rows[i]) in SignedRows(y.rows);
    j :| 0 <= j < |SignedRows(y.rows)| && SignedRows(y.rows)[j] == Signed(x.rows[i]);
    StateTextInjective(x.rows[i].state, y.rows[j].state);
  }

  /** A signature also vouches for the root's own state and latch. */
  lemma {:induction false} SameTextSameRoot(
      a: Snapshot, b: Snapshot, root: Id, aDid: Option<string>, bDid: Option<string>, aAll: bool, bAll: bool)
    requires Walk(a, root, aDid, aAll).Ok? && Walk(b, root, bDid, bAll).Ok?
    requires var x, y := Walk(a, root, aDid, aAll).value, Walk(b, root, bDid, bAll).value;
             && PlainInput(InputOf(root, x)) && |x.rows| == |y.rows|
             && SignatureText(InputOf(root, x)) == SignatureText(InputOf(root, y))
    ensures a.requests[root].state == b.requests[root].state
    ensures OrEmpty(a.requests[root].interruptRequestedAt) == OrEmpty(b.requests[root].interruptRequestedAt)
  {
    var x, y := Walk(a, root, aDid, aAll).value, Walk(b, root, bDid, bAll).value;
    assert x.rootState == a.requests[root].state && y.rootState == b.requests[root].state;
    assert x.rootInterruptRequestedAt == a.requests[root].interruptRequestedAt;
    assert y.rootInterruptRequestedAt == b.requests[root].interruptRequestedAt;
    WalkedIsPresent(a, root, aDid, aAll);
    WalkedIsPresent(b, root, bDid, bAll);
    hide Walk, PlainInput, PresentRows, SignatureText;
    SameCountIsPlain(InputOf(root, x), InputOf(root, y));
    TextTellsRows(InputOf(root, x), InputOf(root, y));
    StateTextInjective(x.rootState, y.rootState);
  }

  lemma {:induction false} StateTextInjective(a: Option<RL.State>, b: Option<RL.State>)
    requires OrEmpty(StateText(a)) == OrEmpty(StateText(b))
    ensures a == b
  {
    if a.Some? {
      RL.ParseInvertsAsStr(RL.AsStr(a.value), a.value);
      assert RL.AsStr(a.value) != "";
    }
    if b.Some? {
      RL.ParseInvertsAsStr(RL.AsStr(b.value), b.value);
      assert RL.AsStr(b.value) != "";
    }
  }

  // ----- a forged text

  /** A call id that reads like the end of its row and the whole of another. */
  const FORGED: string := [UNIT] + "b" + [GROUP] + [GROUP] + [GROUP] + "cascade" + [GROUP]

  function CascadeCall(child: string, callId: Option<string>): ToolCall
  {
    ToolCall(callId, None, None, Some("cascade"), Some(child))
  }

  const PENDING := Request(None, None, None, None, None)

  function RootCalling(calls: seq<ToolCall>): Snapshot
  {
    Snapshot(map["r" := PENDING, "a" := PENDING, "b" := PENDING], map["r" := calls])
  }

  function CascadeRow(child: Id, callId: Option<string>): Row
  {
    Row(child, None, None, None, "r", callId, None, None, Some("cascade"), WillInterrupt)
  }

  lemma {:induction false} SolidIsKept(s: string)
    requires s != "" && !Text.IsWhitespace(s[0]) && !Text.IsWhitespace(s[|s| - 1])
    ensures StringField(Some(s)) == Some(s)
  {
  }

  lemma {:induction false} CallsRow(calls: seq<ToolCall>, child: Id, callId: Option<string>, q: Progress)
    requires child == "a" || child == "b"
    requires child !in q.seen && StringField(callId) == callId
    ensures ExpandCall(RootCalling(calls), true, "r", CascadeCall(child, callId), 0, q)
         == Ok(Progress(q.seen + {child}, q.rows + [CascadeRow(child, callId)]))
  {
    var snap := RootCalling(calls);
    SolidIsKept(child);
    SolidIsKept("cascade");
    assert Calls(snap, child) == [];
    var p := Progress(q.seen + {child}, q.rows + [CascadeRow(child, callId)]);
    assert Expand(snap, true, child, 1, p) == Ok(p);
  }

  lemma {:induction false} WalkOne(callId: Option<string>)
    requires StringField(callId) == callId
    ensures var walk := Walk(RootCalling([CascadeCall("a", callId)]), "r", None, true);
            walk == Ok(WalkResult(None, None, [CascadeRow("a", callId)]))
  {
    var calls := [CascadeCall("a", callId)];
    var snap, p := RootCalling(calls), Progress({"r"}, []);
    assert calls[..0] == [] && Calls(snap, "r") == calls;
    assert ExpandCalls(snap, true, "r", calls[..0], 0, p) == Ok(p);
    CallsRow(calls, "a", callId, p);
    assert [] + [CascadeRow("a", callId)] == [CascadeRow("a", callId)];
  }

  lemma {:induction false} WalkTwo()
    ensures var walk := Walk(RootCalling([CascadeCall("a", None), CascadeCall("b", None)]), "r", None, true);
            walk == Ok(WalkResult(None, None, [CascadeRow("a", None), CascadeRow("b", None)]))
  {
    var calls := [CascadeCall("a", None), CascadeCall("b", None)];
    var snap, p := RootCalling(calls), Progress({"r"}, []);
    var q := Progress({"r"} + {"a"}, [CascadeRow("a", None)]);
    assert calls[..1] == [CascadeCall("a", None)] && calls[..1][..0] == [] && Calls(snap, "r") == calls;
    assert ExpandCalls(snap, true, "r", calls[..1][..0], 0, p) == Ok(p);
    CallsRow(calls, "a", None, p);
    assert [] + [CascadeRow("a", None)] == [CascadeRow("a", None)];
    assert ExpandCalls(snap, true, "r", calls[..1], 0, p) == Ok(q);
    CallsRow(calls, "b", None, q);
    assert [CascadeRow("a", None)] + [CascadeRow("b", None)] == [CascadeRow("a", None), CascadeRow("b", None)];
  }

  lemma {:induction false} SortOne(row: SignatureRow)
    ensures SortById([row]) == [row]
  {
    assert [row][..0] == [];
    assert Sorting.SortBy(RowId, [row][..0]) == [];
    assert Sorting.Insert(RowId, [], row) == [row];
  }

  lemma {:induction false} SortTwo(a: SignatureRow, b: SignatureRow)
    requires !Text.Less(b.id, a.id)
    ensures SortById([a, b]) == [a, b]
  {
    SortOne(a);
    assert [a, b][..1] == [a] && [a][1..] == [];
    assert Sorting.Insert(RowId, [], b) == [b];
    assert Sorting.Insert(RowId, [a], b) == [a] + [b];
  }

  lemma {:induction false} SameText()
    ensures SignatureText(SignatureInput("r", None, None, [Signed(CascadeRow("a", Some(FORGED)))]))
         == SignatureText(SignatureInput("r", None, None, [Signed(CascadeRow("a", None)), Signed(CascadeRow("b", None))]))
  {
    var forged, a, b := Signed(CascadeRow("a", Some(FORGED))), Signed(CascadeRow("a", None)), Signed(CascadeRow("b", None));
    SortOne(forged);
    SortTwo(a, b);
    hide SortById;
    assert [a, b][1..] == [b];
    assert RowText(forged) == RowText(a) + FORGED;
    assert FORGED == [UNIT] + RowText(b);
    assert RowText(a) + FORGED == RowText(a) + [UNIT] + RowText(b);
    assert JoinRows([forged]) == JoinRows([a, b]);
  }

  lemma {:induction false} TwoArePlain()
    ensures PlainInput(InputOf("r", WalkResult(None, None, [CascadeRow("a", None), CascadeRow("b", None)])))
  {
    var rows := [CascadeRow("a", None), CascadeRow("b", None)];
    assert SignedRows(rows) == [Signed(rows[0]), Signed(rows[1])];
    assert PlainRow(Signed(rows[0])) && PlainRow(Signed(rows[1]));
  }

  lemma {:induction false} MarksDiffer()
    ensures !CascadeExact.Marked([CascadeRow("a", Some(FORGED))], "b")
    ensures CascadeExact.Marked([CascadeRow("a", None), CascadeRow("b", None)], "b")
  {
    var rows := [CascadeRow("a", None), CascadeRow("b", None)];
    assert rows[1].id == "b" && rows[1].classification.WillInterrupt?;
  }

  /** The condition cannot be dropped: a call id with separators in it lets a walk
      that marks one request carry the signature of one that marks two. */
  lemma {:induction false} ForgedSignature()
    ensures var one := Walk(RootCalling([CascadeCall("a", Some(FORGED))]), "r", None, true);
            var two := Walk(RootCalling([CascadeCall("a", None), CascadeCall("b", None)]), "r", None, true);
            && one.Ok? && two.Ok?
            && SignatureText(InputOf("r", one.value)) == SignatureText(InputOf("r", two.value))
            && PlainInput(InputOf("r", two.value))
            && !CascadeExact.Marked(one.value.rows, "b") && CascadeExact.Marked(two.value.rows, "b")
  {
    SolidIsKept(FORGED);
    WalkOne(Some(FORGED));
    WalkTwo();
    SameText();
    TwoArePlain();
    MarksDiffer();
    hide Walk, SignatureText, PlainInput, Signed, CascadeRow, CascadeCall, RootCalling;
    SignedOne(CascadeRow("a", Some(FORGED)));
    SignedTwo(CascadeRow("a", None), CascadeRow("b", None));
    hide SignedRows;
  }

  lemma {:induction false} SignedOne(row: Row)
    ensures SignedRows([row]) == [Signed(row)]
  {
  }

  lemma {:induction false} SignedTwo(a: Row, b: Row)
    ensures SignedRows([a, b]) == [Signed(a), Signed(b)]
  {
  }
}
