/** The parser's work state as bqarr_in uses it: methods that advance a cursor,
    fill a numeral buffer and an operator stack, and push nodes on a list, each
    proved to compute the functions of IntQueryParser. */
module IntQueryWork {
  import opened Prelude
  import opened IntQueryGrammar
  import opened IntQueryParser

  datatype Wait = WaitOperand | WaitEndOperand | WaitOperator

  /** The nodes of a list that grew at its front, oldest first. */
  function OldestFirst<T>(list: seq<T>): (r: seq<T>)
    ensures |r| == |list| && forall k :: 0 <= k < |list| ==> r[k] == list[|list| - 1 - k]
  {
    seq(|list|, i requires 0 <= i < |list| => list[|list| - 1 - i])
  }

  lemma {:induction false} DigitRunIs(s: string, k: nat)
    requires k <= |s| && AllDigits(s[..k])
    ensures DigitRun(s) >= k
    ensures k == |s| || !IsDigit(s[k]) ==> DigitRun(s) == k
  {
    if k > 0 {
      assert s[0] == s[..k][0];
      assert s[1..][..k - 1] == s[..k][1..];
      DigitRunIs(s[1..], k - 1);
    }
  }

  /** The numeral that starts at `from`, when its digits reach up to `to`. */
  lemma {:induction false} NumeralIs(s: string, from: nat, to: nat)
    requires from < to <= |s|
    requires IsDigit(s[from]) || s[from] == '-'
    requires AllDigits(s[from + 1..to])
    ensures |LeadingNumeral(s[from..])| >= to - from
    ensures to == |s| || !IsDigit(s[to]) ==> LeadingNumeral(s[from..]) == s[from..to]
  {
    var t := s[from..];
    var k := to - from - 1;
    assert t[1..][..k] == s[from + 1..to];
    DigitRunIs(t[1..], k);
    assert k < |t[1..]| ==> t[1..][k] == s[to];
    assert t[..1 + k] == s[from..to];
  }

  /** What follows a numeral that ends at `to`. */
  lemma {:induction false} NextNumeral(s: string, from: nat, to: nat, depth: nat)
    requires from < to <= |s| && to - from <= NUMERAL_MAX
    requires (IsDigit(s[from]) || s[from] == '-') && AllDigits(s[from + 1..to])
    requires to == |s| || !IsDigit(s[to])
    ensures IsNumeral(s[from..to])
    ensures var v := StrToL(s[from..to]);
            var next := Next(Cursor(s[from..], true, depth));
            if !IsInt32(v) || (depth > 0 && to == |s|) then next.0 == Err
            else next == (Number(v), Cursor(s[to..], false, depth))
  {
    NumeralIs(s, from, to);
    assert s[from..][to - from..] == s[to..];
  }

  lemma {:induction false} DigitsPush(s: string, from: nat, to: nat)
    requires from <= to < |s| && AllDigits(s[from..to]) && IsDigit(s[to])
    ensures s[from..to + 1] == s[from..to] + [s[to]] && AllDigits(s[from..to + 1])
  {
    assert s[from..to + 1] == s[from..to] + [s[to]];
  }

  class WorkState {
    const buf: string
    var pos: nat
    var state: Wait
    var count: nat
    var str: seq<Node>  // reverse polish notation, newest node first
    var num: nat

    constructor (text: string)
      ensures Valid() && Cur() == Start(text) && Out() == [] && buf == text
    {
      buf := text;
      pos, state, count, str, num := 0, WaitOperand, 0, [], 0;
    }

    ghost predicate Valid()
      reads this
    {
      pos <= |buf| && state != WaitEndOperand && num == |str|
    }

    ghost function Cur(): Cursor
      requires pos <= |buf|
      reads this
    {
      Cursor(buf[pos..], state == WaitOperand, count)
    }

    ghost function Out(): seq<Node>
      reads this
    {
      OldestFirst(str)
    }

    /** Part of a token has been read: nothing but blanks, or the start of a
        numeral. What gettoken must return, it must still return. */
    ghost predicate Scanning(c0: Cursor, numeral: string)
      reads this
    {
      && pos <= |buf|
      && if state == WaitEndOperand then
           var from := pos - |numeral|;
           && 1 <= |numeral| <= pos && numeral == buf[from..pos]
           && (IsDigit(buf[from]) || buf[from] == '-') && AllDigits(buf[from + 1..pos])
           && Next(c0) == Next(Cursor(buf[from..], true, count))
         else numeral == "" && Next(c0) == Next(Cur())
    }

    ghost predicate Returns(t: Token, c0: Cursor)
      reads this
    {
      pos <= |buf| && t == Next(c0).0 && (t != Err ==> Valid() && Cur() == Next(c0).1)
    }

    /** gettoken. */
    method GetToken() returns (t: Token)
      requires Valid()
      modifies this`pos, this`state, this`count
      ensures Returns(t, old(Cur()))
    {
      var nnn := new char[16];
      var innn: nat := 0;
      ghost var c0 := Cur();
      while true
        invariant innn <= 16 && Scanning(c0, nnn[..innn])
        invariant num == |str|
        decreases |buf| - pos
      {
        if innn >= nnn.Length {
          NumeralIs(buf, pos - innn, pos);
          return Err;
        }
        var r;
        match state {
          case WaitOperand => r, innn := AtOperand(nnn, c0);
          case WaitEndOperand => r, innn := AtEndOperand(nnn, innn, c0);
          case WaitOperator => r := AtOperator(c0);
        }
        if r.Some? {
          return r.value;
        }
      }
    }

    method AtOperand(nnn: array<char>, ghost c0: Cursor) returns (r: Option<Token>, innn: nat)
      requires state == WaitOperand && num == |str| && Scanning(c0, []) && nnn.Length == 16
      modifies this`pos, this`state, this`count, nnn
      ensures r.Some? ==> Returns(r.value, c0)
      ensures r.None? ==> pos == old(pos) + 1 && innn <= 16 && Scanning(c0, nnn[..innn])
    {
      innn := 0;
      assert pos < |buf| ==> buf[pos..][1..] == buf[pos + 1..];
      if pos == |buf| {
        return Some(Err), innn;
      } else if IsDigit(buf[pos]) || buf[pos] == '-' {
        state := WaitEndOperand;
        nnn[innn] := buf[pos];
        innn := innn + 1;
      } else if buf[pos] == '!' {
        pos := pos + 1;
        return Some(Operator(Not)), innn;
      } else if buf[pos] == '(' {
        count := count + 1;
        pos := pos + 1;
        return Some(Open), innn;
      } else if buf[pos] != ' ' {
        return Some(Err), innn;
      }
      pos := pos + 1;
      return None, innn;
    }

    method AtEndOperand(nnn: array<char>, len: nat, ghost c0: Cursor) returns (r: Option<Token>, innn: nat)
      requires state == WaitEndOperand && num == |str| && nnn.Length == 16 && len < 16
      requires Scanning(c0, nnn[..len])
      modifies this`pos, this`state, nnn
      ensures r.Some? ==> Returns(r.value, c0)
      ensures r.None? ==> pos == old(pos) + 1 && innn <= 16 && Scanning(c0, nnn[..innn])
    {
      hide Next;
      innn := len;
      ghost var from := pos - len;
      if pos < |buf| && IsDigit(buf[pos]) {
        DigitsPush(buf, from + 1, pos);
        assert buf[from..pos + 1] == buf[from..pos] + [buf[pos]];
        nnn[innn] := buf[pos];
        innn := innn + 1;
        assert nnn[..innn] == nnn[..innn - 1] + [buf[pos]];
        pos := pos + 1;
        return None, innn;
      }
      var t := EndNumeral(nnn, innn, c0);
      return Some(t), innn;
    }

    method EndNumeral(nnn: array<char>, innn: nat, ghost c0: Cursor) returns (t: Token)
      requires state == WaitEndOperand && num == |str| && innn < nnn.Length == 16
      requires Scanning(c0, nnn[..innn]) && (pos == |buf| || !IsDigit(buf[pos]))
      modifies this`state
      ensures Returns(t, c0)
    {
      NextNumeral(buf, pos - innn, pos, count);
      hide Next;
      var val := StrToL(nnn[..innn]);
      if !IsInt32(val) {
        return Err;
      }
      state := WaitOperator;
      return if count > 0 && pos == |buf| then Err else Number(val);
    }

    method AtOperator(ghost c0: Cursor) returns (r: Option<Token>)
      requires state == WaitOperator && num == |str| && Scanning(c0, [])
      modifies this`pos, this`state, this`count
      ensures r.Some? ==> Returns(r.value, c0)
      ensures r.None? ==> pos == old(pos) + 1 && Scanning(c0, [])
    {
      assert pos < |buf| ==> buf[pos..][1..] == buf[pos + 1..];
      if pos == |buf| {
        return Some(if count > 0 then Err else End);
      } else if buf[pos] == '&' || buf[pos] == '|' {
        state := WaitOperand;
        pos := pos + 1;
        return Some(Operator(if buf[pos - 1] == '&' then And else Or));
      } else if buf[pos] == ')' {
        pos := pos + 1;
        if count == 0 {
          return Some(Err);
        }
        count := count - 1;
        return Some(Close);
      } else if buf[pos] != ' ' {
        return Some(Err);
      }
      pos := pos + 1;
      return None;
    }

    /** pushquery. */
    method PushQuery(n: Node)
      requires Valid()
      modifies this`str, this`num
      ensures Valid() && Cur() == old(Cur()) && Out() == old(Out()) + [n]
    {
      assert OldestFirst([n] + str) == OldestFirst(str) + [n];
      str := [n] + str;
      num := num + 1;
    }

    /** makepol: one nesting level. */
    method MakePol() returns (error: Option<QueryError>)
      requires Valid()
      modifies this
      ensures match Compile(old(Cur()), [], old(Out()))
              case Fail(e) => error == Some(e)
              case Done(c, out) => error == None && Valid() && Cur() == c && Out() == out
      decreases |buf| - pos, 0
    {
      var stack := new Op[STACK_DEPTH];
      var lenstack: nat := 0;
      ghost var goal := Compile(Cur(), [], Out());
      ghost var c := Cur();
      var t := GetToken();
      while t != End
        invariant lenstack <= STACK_DEPTH && Returns(t, c)
        invariant Compile(c, stack[..lenstack], Out()) == goal
        invariant |c.rest| <= |old(Cur()).rest|
        decreases |c.rest|
      {
        CompileStep(c, Next(c).1, t, stack[..lenstack], Out());
        hide Compile, Next;
        if t == Err {
          return Some(SyntaxError);
        } else if t == Close {
          PopAll(stack, lenstack);
          return None;
        }
        var e;
        e, lenstack := Turn(t, stack, lenstack, c);
        if e.Some? {
          return e;
        }
        c := Cur();
        t := GetToken();
      }
      CompileStep(c, Next(c).1, t, stack[..lenstack], Out());
      PopAll(stack, lenstack);
      return None;
    }

    /** The work makepol does for an operand, an operator or an open
        parenthesis. */
    method Turn(t: Token, stack: array<Op>, len: nat, ghost c: Cursor)
      returns (error: Option<QueryError>, lenstack: nat)
      requires Valid() && len <= STACK_DEPTH == stack.Length
      requires Next(c) == (t, Cur()) && (t.Number? || t.Operator? || t.Open?)
      modifies this, stack
      ensures var was := Compile(c, old(stack[..len]), old(Out()));
              if error.Some? then was == Fail(error.value)
              else && Valid() && lenstack <= STACK_DEPTH && |Cur().rest| <= |old(Cur()).rest|
                   && Compile(Cur(), stack[..lenstack], Out()) == was
      decreases |buf| - pos, 1
    {
      ghost var st := stack[..len];
      CompileStep(c, Cur(), t, st, Out());
      hide Compile, Next;
      match t {
        case Number(v) =>
          PushQuery(Val(v));
          assert stack[..len] == st;
          lenstack := PopHigh(stack, len);
          return None, lenstack;
        case Operator(op) =>
          var ok;
          ok, lenstack := PushOperator(op, stack, len);
          return if ok then None else Some(StatementTooComplex), lenstack;
        case Open =>
          var e := MakePol();
          if e.Some? {
            return e, len;
          }
          assert stack[..len] == st;
          lenstack := PopHigh(stack, len);
          return None, lenstack;
      }
    }

    /** An operator goes on the stack; but a second "|" of a level is emitted
        at once, in place of the one on the stack. */
    method PushOperator(op: Op, stack: array<Op>, len: nat) returns (ok: bool, lenstack: nat)
      requires Valid() && len <= STACK_DEPTH == stack.Length
      modifies this`str, this`num, stack
      ensures Valid() && Cur() == old(Cur()) && lenstack <= STACK_DEPTH
      ensures len > 0 && op == Or ==>
                ok && stack[..lenstack] == old(stack[..len]) && Out() == old(Out()) + [Opr(op)]
      ensures !(len > 0 && op == Or) ==>
                && (ok <==> len < STACK_DEPTH)
                && (ok ==> stack[..lenstack] == old(stack[..len]) + [op] && Out() == old(Out()))
    {
      lenstack := len;
      if lenstack > 0 && op == Or {
        PushQuery(Opr(op));
      } else {
        if lenstack == STACK_DEPTH {
          return false, lenstack;
        }
        stack[lenstack] := op;
        lenstack := lenstack + 1;
        assert stack[..lenstack] == stack[..lenstack - 1] + [op];
      }
      return true, lenstack;
    }

    /** Emits the trailing "&" and "!" of the stack. */
    method PopHigh(stack: array<Op>, len: nat) returns (lenstack: nat)
      requires Valid() && len <= stack.Length
      modifies this`str, this`num
      ensures lenstack <= len && stack[..lenstack] == Low(stack[..len])
      ensures Valid() && Cur() == old(Cur()) && Out() == old(Out()) + High(stack[..len])
    {
      lenstack := len;
      while lenstack > 0 && (stack[lenstack - 1] == And || stack[lenstack - 1] == Not)
        invariant lenstack <= len && Valid() && Cur() == old(Cur())
        invariant Low(stack[..lenstack]) == Low(stack[..len])
        invariant Out() + High(stack[..lenstack]) == old(Out()) + High(stack[..len])
      {
        ghost var st := stack[..lenstack];
        assert st[..lenstack - 1] == stack[..lenstack - 1];
        Assoc(Out(), [Opr(st[lenstack - 1])], High(stack[..lenstack - 1]));
        lenstack := lenstack - 1;
        PushQuery(Opr(stack[lenstack]));
      }
    }

    /** Emits the whole stack. */
    method PopAll(stack: array<Op>, len: nat)
      requires Valid() && len <= stack.Length
      modifies this`str, this`num
      ensures Valid() && Cur() == old(Cur()) && Out() == old(Out()) + Drain(stack[..len])
    {
      var lenstack: nat := len;
      while lenstack > 0
        invariant lenstack <= len && Valid() && Cur() == old(Cur())
        invariant Out() + Drain(stack[..lenstack]) == old(Out()) + Drain(stack[..len])
      {
        ghost var st := stack[..lenstack];
        assert st[..lenstack - 1] == stack[..lenstack - 1];
        Assoc(Out(), [Opr(st[lenstack - 1])], Drain(stack[..lenstack - 1]));
        lenstack := lenstack - 1;
        PushQuery(Opr(stack[lenstack]));
      }
    }
  }
}
