/**
 The checksum of tissdb/common/checksum.cpp: a table-driven loop that is the bitwise CRC-32 of section 8
 of RFC 1952, and that no damage to a single byte escapes.
 */
module Crc {

  // ---------- words ----------

  function Xor(a: bv32, b: bv32): bv32 { a ^ b }

  function Widen(b: bv8): bv32 { b as bv32 }

  function Low(c: bv32): bv8 { (c & 0xFF) as bv8 }

  function High(c: bv32): bv32 { c & 0xFFFF_FF00 }

  function Down8(c: bv32): bv32 { c >> 8 }

  lemma XorAssociates(p: bv32, q: bv32, r: bv32)
    ensures Xor(Xor(p, q), r) == Xor(p, Xor(q, r))
  {
  }

  lemma XorCommutes(p: bv32, q: bv32)
    ensures Xor(p, q) == Xor(q, p)
  {
  }

  lemma XorPairs(p: bv32, q: bv32, r: bv32, s: bv32)
    ensures Xor(Xor(p, q), Xor(r, s)) == Xor(Xor(p, r), Xor(q, s))
  {
    hide *;
    XorAssociates(Xor(p, q), r, s);
    XorAssociates(p, q, r);
    XorCommutes(q, r);
    XorAssociates(p, r, q);
    XorAssociates(Xor(p, r), q, s);
  }

  lemma XorCancels(a: bv32, b: bv32, x: bv32)
    requires Xor(a, x) == Xor(b, x)
    ensures a == b
  {
  }

  // ---------- bit by bit ----------

  function Half(c: bv32): bv32 { c >> 1 }

  /** The reversed polynomial, if the bit shifted out is a one. */
  function Feedback(c: bv32): bv32 { if c & 1 == 1 then 0xEDB88320 else 0 }

  /** One bit through the shift register. */
  function Shift(c: bv32): bv32 { Xor(Half(c), Feedback(c)) }

  function Shift8(c: bv32): bv32 {
    Shift(Shift(Shift(Shift(Shift(Shift(Shift(Shift(c))))))))
  }

  /** The register after the bytes `p`, each shifted through bit by bit. */
  ghost function Register(c: bv32, p: seq<bv8>): bv32
    decreases p
  {
    if p == [] then c else Register(Shift8(Xor(c, Widen(p[0]))), p[1..])
  }

  ghost function Bitwise(p: seq<bv8>): bv32 {
    !Register(0xFFFF_FFFF, p)
  }

  // ---------- the table ----------

  /** `crc32_table`; each pair of lines is one of its rows of eight. */
  function Table(b: bv8): bv32 {
    if b < 128 then
      if b < 64 then
        if b < 32 then
          if b < 16 then
            if b < 8 then
              if b == 0 then 0x00000000 else if b == 1 then 0x77073096 else if b == 2 then 0xEE0E612C else if b == 3 then 0x990951BA
              else if b == 4 then 0x076DC419 else if b == 5 then 0x706AF48F else if b == 6 then 0xE963A535 else 0x9E6495A3
            else
              if b == 8 then 0x0EDB8832 else if b == 9 then 0x79DCB8A4 else if b == 10 then 0xE0D5E91E else if b == 11 then 0x97D2D988
              else if b == 12 then 0x09B64C2B else if b == 13 then 0x7EB17CBD else if b == 14 then 0xE7B82D07 else 0x90BF1D91
          else
            if b < 24 then
              if b == 16 then 0x1DB71064 else if b == 17 then 0x6AB020F2 else if b == 18 then 0xF3B97148 else if b == 19 then 0x84BE41DE
              else if b == 20 then 0x1ADAD47D else if b == 21 then 0x6DDDE4EB else if b == 22 then 0xF4D4B551 else 0x83D385C7
            else
              if b == 24 then 0x136C9856 else if b == 25 then 0x646BA8C0 else if b == 26 then 0xFD62F97A else if b == 27 then 0x8A65C9EC
              else if b == 28 then 0x14015C4F else if b == 29 then 0x63066CD9 else if b == 30 then 0xFA0F3D63 else 0x8D080DF5
        else
          if b < 48 then
            if b < 40 then
              if b == 32 then 0x3B6E20C8 else if b == 33 then 0x4C69105E else if b == 34 then 0xD56041E4 else if b == 35 then 0xA2677172
              else if b == 36 then 0x3C03E4D1 else if b == 37 then 0x4B04D447 else if b == 38 then 0xD20D85FD else 0xA50AB56B
            else
              if b == 40 then 0x35B5A8FA else if b == 41 then 0x42B2986C else if b == 42 then 0xDBBBC9D6 else if b == 43 then 0xACBCF940
              else if b == 44 then 0x32D86CE3 else if b == 45 then 0x45DF5C75 else if b == 46 then 0xDCD60DCF else 0xABD13D59
          else
            if b < 56 then
              if b == 48 then 0x26D930AC else if b == 49 then 0x51DE003A else if b == 50 then 0xC8D75180 else if b == 51 then 0xBFD06116
              else if b == 52 then 0x21B4F4B5 else if b == 53 then 0x56B3C423 else if b == 54 then 0xCFBA9599 else 0xB8BDA50F
            else
              if b == 56 then 0x2802B89E else if b == 57 then 0x5F058808 else if b == 58 then 0xC60CD9B2 else if b == 59 then 0xB10BE924
              else if b == 60 then 0x2F6F7C87 else if b == 61 then 0x58684C11 else if b == 62 then 0xC1611DAB else 0xB6662D3D
      else
        if b < 96 then
          if b < 80 then
            if b < 72 then
              if b == 64 then 0x76DC4190 else if b == 65 then 0x01DB7106 else if b == 66 then 0x98D220BC else if b == 67 then 0xEFD5102A
              else if b == 68 then 0x71B18589 else if b == 69 then 0x06B6B51F else if b == 70 then 0x9FBFE4A5 else 0xE8B8D433
            else
              if b == 72 then 0x7807C9A2 else if b == 73 then 0x0F00F934 else if b == 74 then 0x9609A88E else if b == 75 then 0xE10E9818
              else if b == 76 then 0x7F6A0DBB else if b == 77 then 0x086D3D2D else if b == 78 then 0x91646C97 else 0xE6635C01
          else
            if b < 88 then
              if b == 80 then 0x6B6B51F4 else if b == 81 then 0x1C6C6162 else if b == 82 then 0x856530D8 else if b == 83 then 0xF262004E
              else if b == 84 then 0x6C0695ED else if b == 85 then 0x1B01A57B else if b == 86 then 0x8208F4C1 else 0xF50FC457
            else
              if b == 88 then 0x65B0D9C6 else if b == 89 then 0x12B7E950 else if b == 90 then 0x8BBEB8EA else if b == 91 then 0xFCB9887C
              else if b == 92 then 0x62DD1DDF else if b == 93 then 0x15DA2D49 else if b == 94 then 0x8CD37CF3 else 0xFBD44C65
        else
          if b < 112 then
            if b < 104 then
              if b == 96 then 0x4DB26158 else if b == 97 then 0x3AB551CE else if b == 98 then 0xA3BC0074 else if b == 99 then 0xD4BB30E2
              else if b == 100 then 0x4ADFA541 else if b == 101 then 0x3DD895D7 else if b == 102 then 0xA4D1C46D else 0xD3D6F4FB
            else
              if b == 104 then 0x4369E96A else if b == 105 then 0x346ED9FC else if b == 106 then 0xAD678846 else if b == 107 then 0xDA60B8D0
              else if b == 108 then 0x44042D73 else if b == 109 then 0x33031DE5 else if b == 110 then 0xAA0A4C5F else 0xDD0D7CC9
          else
            if b < 120 then
              if b == 112 then 0x5005713C else if b == 113 then 0x270241AA else if b == 114 then 0xBE0B1010 else if b == 115 then 0xC90C2086
              else if b == 116 then 0x5768B525 else if b == 117 then 0x206F85B3 else if b == 118 then 0xB966D409 else 0xCE61E49F
            else
              if b == 120 then 0x5EDEF90E else if b == 121 then 0x29D9C998 else if b == 122 then 0xB0D09822 else if b == 123 then 0xC7D7A8B4
              else if b == 124 then 0x59B33D17 else if b == 125 then 0x2EB40D81 else if b == 126 then 0xB7BD5C3B else 0xC0BA6CAD
    else
      if b < 192 then
        if b < 160 then
          if b < 144 then
            if b < 136 then
              if b == 128 then 0xEDB88320 else if b == 129 then 0x9ABFB3B6 else if b == 130 then 0x03B6E20C else if b == 131 then 0x74B1D29A
              else if b == 132 then 0xEAD54739 else if b == 133 then 0x9DD277AF else if b == 134 then 0x04DB2615 else 0x73DC1683
            else
              if b == 136 then 0xE3630B12 else if b == 137 then 0x94643B84 else if b == 138 then 0x0D6D6A3E else if b == 139 then 0x7A6A5AA8
              else if b == 140 then 0xE40ECF0B else if b == 141 then 0x9309FF9D else if b == 142 then 0x0A00AE27 else 0x7D079EB1
          else
            if b < 152 then
              if b == 144 then 0xF00F9344 else if b == 145 then 0x8708A3D2 else if b == 146 then 0x1E01F268 else if b == 147 then 0x6906C2FE
              else if b == 148 then 0xF762575D else if b == 149 then 0x806567CB else if b == 150 then 0x196C3671 else 0x6E6B06E7
            else
              if b == 152 then 0xFED41B76 else if b == 153 then 0x89D32BE0 else if b == 154 then 0x10DA7A5A else if b == 155 then 0x67DD4ACC
              else if b == 156 then 0xF9B9DF6F else if b == 157 then 0x8EBEEFF9 else if b == 158 then 0x17B7BE43 else 0x60B08ED5
        else
          if b < 176 then
            if b < 168 then
              if b == 160 then 0xD6D6A3E8 else if b == 161 then 0xA1D1937E else if b == 162 then 0x38D8C2C4 else if b == 163 then 0x4FDFF252
              else if b == 164 then 0xD1BB67F1 else if b == 165 then 0xA6BC5767 else if b == 166 then 0x3FB506DD else 0x48B2364B
            else
              if b == 168 then 0xD80D2BDA else if b == 169 then 0xAF0A1B4C else if b == 170 then 0x36034AF6 else if b == 171 then 0x41047A60
              else if b == 172 then 0xDF60EFC3 else if b == 173 then 0xA867DF55 else if b == 174 then 0x316E8EEF else 0x4669BE79
          else
            if b < 184 then
              if b == 176 then 0xCB61B38C else if b == 177 then 0xBC66831A else if b == 178 then 0x256FD2A0 else if b == 179 then 0x5268E236
              else if b == 180 then 0xCC0C7795 else if b == 181 then 0xBB0B4703 else if b == 182 then 0x220216B9 else 0x5505262F
            else
              if b == 184 then 0xC5BA3BBE else if b == 185 then 0xB2BD0B28 else if b == 186 then 0x2BB45A92 else if b == 187 then 0x5CB36A04
              else if b == 188 then 0xC2D7FFA7 else if b == 189 then 0xB5D0CF31 else if b == 190 then 0x2CD99E8B else 0x5BDEAE1D
      else
        if b < 224 then
          if b < 208 then
            if b < 200 then
              if b == 192 then 0x9B64C2B0 else if b == 193 then 0xEC63F226 else if b == 194 then 0x756AA39C else if b == 195 then 0x026D930A
              else if b == 196 then 0x9C0906A9 else if b == 197 then 0xEB0E363F else if b == 198 then 0x72076785 else 0x05005713
            else
              if b == 200 then 0x95BF4A82 else if b == 201 then 0xE2B87A14 else if b == 202 then 0x7BB12BAE else if b == 203 then 0x0CB61B38
              else if b == 204 then 0x92D28E9B else if b == 205 then 0xE5D5BE0D else if b == 206 then 0x7CDCEFB7 else 0x0BDBDF21
          else
            if b < 216 then
              if b == 208 then 0x86D3D2D4 else if b == 209 then 0xF1D4E242 else if b == 210 then 0x68DDB3F8 else if b == 211 then 0x1FDA836E
              else if b == 212 then 0x81BE16CD else if b == 213 then 0xF6B9265B else if b == 214 then 0x6FB077E1 else 0x18B74777
            else
              if b == 216 then 0x88085AE6 else if b == 217 then 0xFF0F6A70 else if b == 218 then 0x66063BCA else if b == 219 then 0x11010B5C
              else if b == 220 then 0x8F659EFF else if b == 221 then 0xF862AE69 else if b == 222 then 0x616BFFD3 else 0x166CCF45
        else
          if b < 240 then
            if b < 232 then
              if b == 224 then 0xA00AE278 else if b == 225 then 0xD70DD2EE else if b == 226 then 0x4E048354 else if b == 227 then 0x3903B3C2
              else if b == 228 then 0xA7672661 else if b == 229 then 0xD06016F7 else if b == 230 then 0x4969474D else 0x3E6E77DB
            else
              if b == 232 then 0xAED16A4A else if b == 233 then 0xD9D65ADC else if b == 234 then 0x40DF0B66 else if b == 235 then 0x37D83BF0
              else if b == 236 then 0xA9BCAE53 else if b == 237 then 0xDEBB9EC5 else if b == 238 then 0x47B2CF7F else 0x30B5FFE9
          else
            if b < 248 then
              if b == 240 then 0xBDBDF21C else if b == 241 then 0xCABAC28A else if b == 242 then 0x53B39330 else if b == 243 then 0x24B4A3A6
              else if b == 244 then 0xBAD03605 else if b == 245 then 0xCDD70693 else if b == 246 then 0x54DE5729 else 0x23D967BF
            else
              if b == 248 then 0xB3667A2E else if b == 249 then 0xC4614AB8 else if b == 250 then 0x5D681B02 else if b == 251 then 0x2A6F2B94
              else if b == 252 then 0xB40BBE37 else if b == 253 then 0xC30C8EA1 else if b == 254 then 0x5A05DF1B else 0x2D02EF8D
  }

  /** `v` if the bit `m` of `b` is set. */
  function Pick(b: bv8, m: bv8, v: bv32): bv32 { if b & m == m then v else 0 }

  /** What a byte makes of eight values, one for each of its bits. */
  function Sum(b: bv8, v0: bv32, v1: bv32, v2: bv32, v3: bv32, v4: bv32, v5: bv32, v6: bv32, v7: bv32): bv32 {
    Xor(Xor(Xor(Xor(Xor(Xor(Xor(Pick(b, 1, v0), Pick(b, 2, v1)), Pick(b, 4, v2)), Pick(b, 8, v3)),
                    Pick(b, 16, v4)), Pick(b, 32, v5)), Pick(b, 64, v6)), Pick(b, 128, v7))
  }

  /** The same of the table's entries at the powers of two. */
  function Linear(b: bv8): bv32 {
    Sum(b, 0x77073096, 0xEE0E612C, 0x076DC419, 0x0EDB8832, 0x1DB71064, 0x3B6E20C8, 0x76DC4190, 0xEDB88320)
  }

  lemma TableLinear(b: bv8)
    ensures Table(b) == Linear(b)
  {
    hide Table, Linear;
    if b < 8 {
      FirstEight(b);
    } else if b < 32 {
      FirstPart(b);
    } else if b < 64 {
      SecondPart(b);
    } else if b < 96 {
      ThirdPart(b);
    } else if b < 128 {
      FourthPart(b);
    } else if b < 160 {
      FifthPart(b);
    } else if b < 192 {
      SixthPart(b);
    } else if b < 224 {
      SeventhPart(b);
    } else {
      LastPart(b);
    }
  }

  lemma FirstEight(b: bv8)
    requires b < 8
    ensures Table(b) == Linear(b)
  {
    assert b == 0 || b == 1 || b == 2 || b == 3 || b == 4 || b == 5 || b == 6 || b == 7;
  }

  lemma FirstPart(b: bv8)
    requires 8 <= b < 32
    ensures Table(b) == Linear(b)
  {
  }

  lemma SecondPart(b: bv8)
    requires 32 <= b < 64
    ensures Table(b) == Linear(b)
  {
  }

  lemma ThirdPart(b: bv8)
    requires 64 <= b < 96
    ensures Table(b) == Linear(b)
  {
  }

  lemma FourthPart(b: bv8)
    requires 96 <= b < 128
    ensures Table(b) == Linear(b)
  {
  }

  lemma FifthPart(b: bv8)
    requires 128 <= b < 160
    ensures Table(b) == Linear(b)
  {
  }

  lemma SixthPart(b: bv8)
    requires 160 <= b < 192
    ensures Table(b) == Linear(b)
  {
  }

  lemma SeventhPart(b: bv8)
    requires 192 <= b < 224
    ensures Table(b) == Linear(b)
  {
  }

  lemma LastPart(b: bv8)
    requires 224 <= b
    ensures Table(b) == Linear(b)
  {
  }

  lemma ByteIsSum(b: bv8)
    ensures Widen(b) == Sum(b, 1, 2, 4, 8, 16, 32, 64, 128)
  {
    hide Widen, Xor, Pick;
    LowBits(b);
    TopBits(b);
  }

  lemma LowBits(b: bv8)
    ensures Widen(b & 15) == Xor(Xor(Xor(Pick(b, 1, 1), Pick(b, 2, 2)), Pick(b, 4, 4)), Pick(b, 8, 8))
  {
  }

  /** Each bit on top of the lower ones. */
  lemma TopBits(b: bv8)
    ensures Widen(b & 31) == Xor(Widen(b & 15), Pick(b, 16, 16)) && Widen(b & 63) == Xor(Widen(b & 31), Pick(b, 32, 32))
    ensures Widen(b & 127) == Xor(Widen(b & 63), Pick(b, 64, 64)) && Widen(b) == Xor(Widen(b & 127), Pick(b, 128, 128))
  {
  }

  lemma HalfXor(a: bv32, b: bv32)
    ensures Half(Xor(a, b)) == Xor(Half(a), Half(b))
  {
  }

  lemma FeedbackXor(a: bv32, b: bv32)
    ensures Feedback(Xor(a, b)) == Xor(Feedback(a), Feedback(b))
  {
  }

  lemma ShiftXor(a: bv32, b: bv32)
    ensures Shift(Xor(a, b)) == Xor(Shift(a), Shift(b))
  {
    hide Xor, Half, Feedback;
    HalfXor(a, b);
    FeedbackXor(a, b);
    XorPairs(Half(a), Half(b), Feedback(a), Feedback(b));
  }

  lemma ShiftTwiceXor(a: bv32, b: bv32)
    ensures Shift(Shift(Xor(a, b))) == Xor(Shift(Shift(a)), Shift(Shift(b)))
  {
    hide Shift, Xor;
    ShiftXor(a, b);
    ShiftXor(Shift(a), Shift(b));
  }

  lemma Shift8Xor(a: bv32, b: bv32)
    ensures Shift8(Xor(a, b)) == Xor(Shift8(a), Shift8(b))
  {
    hide Shift, Xor;
    var a2, b2 := Shift(Shift(a)), Shift(Shift(b));
    var a4, b4 := Shift(Shift(a2)), Shift(Shift(b2));
    var a6, b6 := Shift(Shift(a4)), Shift(Shift(b4));
    ShiftTwiceXor(a, b);
    ShiftTwiceXor(a2, b2);
    ShiftTwiceXor(a4, b4);
    ShiftTwiceXor(a6, b6);
  }

  lemma ShiftPick(b: bv8, m: bv8, v: bv32)
    ensures Shift8(Pick(b, m, v)) == Pick(b, m, Shift8(v))
  {
    hide Shift8;
    if b & m != m {
      Powers1();
    }
  }

  /** A byte's register is made of the registers of its bits. */
  lemma ShiftSum(b: bv8, v0: bv32, v1: bv32, v2: bv32, v3: bv32, v4: bv32, v5: bv32, v6: bv32, v7: bv32)
    ensures Shift8(Sum(b, v0, v1, v2, v3, v4, v5, v6, v7)) ==
            Sum(b, Shift8(v0), Shift8(v1), Shift8(v2), Shift8(v3), Shift8(v4), Shift8(v5), Shift8(v6), Shift8(v7))
  {
    hide Shift8, Xor, Pick;
    var x1 := Pick(b, 1, v0);
    var x2 := Xor(x1, Pick(b, 2, v1));
    var x3 := Xor(x2, Pick(b, 4, v2));
    var x4 := Xor(x3, Pick(b, 8, v3));
    var x5 := Xor(x4, Pick(b, 16, v4));
    var x6 := Xor(x5, Pick(b, 32, v5));
    var x7 := Xor(x6, Pick(b, 64, v6));
    Shift8Xor(x1, Pick(b, 2, v1));
    Shift8Xor(x2, Pick(b, 4, v2));
    Shift8Xor(x3, Pick(b, 8, v3));
    Shift8Xor(x4, Pick(b, 16, v4));
    Shift8Xor(x5, Pick(b, 32, v5));
    Shift8Xor(x6, Pick(b, 64, v6));
    Shift8Xor(x7, Pick(b, 128, v7));
    ShiftPick(b, 1, v0);
    ShiftPick(b, 2, v1);
    ShiftPick(b, 4, v2);
    ShiftPick(b, 8, v3);
    ShiftPick(b, 16, v4);
    ShiftPick(b, 32, v5);
    ShiftPick(b, 64, v6);
    ShiftPick(b, 128, v7);
  }

  lemma Powers1()
    ensures Shift8(0) == 0 && Shift8(1) == 0x77073096 && Shift8(2) == 0xEE0E612C
  {
  }

  lemma Powers2()
    ensures Shift8(4) == 0x076DC419 && Shift8(8) == 0x0EDB8832 && Shift8(16) == 0x1DB71064
  {
  }

  lemma Powers3()
    ensures Shift8(32) == 0x3B6E20C8 && Shift8(64) == 0x76DC4190 && Shift8(128) == 0xEDB88320
  {
  }

  /** Every entry of the table is its index shifted through bit by bit. */
  lemma TableIsBitwise(b: bv8)
    ensures Table(b) == Shift8(Widen(b))
  {
    hide Shift8, Table, Sum, Widen;
    TableLinear(b);
    ByteIsSum(b);
    Powers1();
    Powers2();
    Powers3();
    ShiftSum(b, 1, 2, 4, 8, 16, 32, 64, 128);
  }

  // ---------- the loop ----------

  function Quarter(c: bv32): bv32 { c >> 2 }

  lemma EvenShift(c: bv32)
    requires c & 1 == 0
    ensures Shift(c) == Half(c)
  {
  }

  lemma Halves(c: bv32)
    requires c & 3 == 0
    ensures c & 1 == 0 && Half(c) & 1 == 0 && Half(Half(c)) == Quarter(c)
  {
  }

  lemma EvenShifts(c: bv32)
    requires c & 3 == 0
    ensures Shift(Shift(c)) == Quarter(c)
  {
    hide Shift, Half, Quarter;
    Halves(c);
    EvenShift(c);
    EvenShift(Half(c));
  }

  lemma HighBits(c: bv32)
    ensures High(c) & 3 == 0 && Quarter(High(c)) & 3 == 0
    ensures Quarter(Quarter(High(c))) & 3 == 0 && Quarter(Quarter(Quarter(High(c)))) & 3 == 0
  {
  }

  lemma HighDown(c: bv32)
    ensures Quarter(Quarter(Quarter(Quarter(High(c))))) == Down8(c)
  {
  }

  /** Eight zero bits at the low end only move the rest down. */
  lemma ShiftHigh(c: bv32)
    ensures Shift8(High(c)) == Down8(c)
  {
    hide Shift, High, Quarter, Down8;
    var h := High(c);
    HighBits(c);
    HighDown(c);
    EvenShifts(h);
    EvenShifts(Quarter(h));
    EvenShifts(Quarter(Quarter(h)));
    EvenShifts(Quarter(Quarter(Quarter(h))));
  }

  lemma HighAndLow(x: bv32)
    ensures x == Xor(Widen(Low(x)), High(x))
  {
  }

  lemma NoLowByte(c: bv32, b: bv8)
    ensures Down8(Xor(c, Widen(b))) == Down8(c)
  {
  }

  /** A turn of the loop is eight turns of the shift register. */
  lemma StepIsBitwise(c: bv32, b: bv8)
    ensures Xor(Table(Low(Xor(c, Widen(b)))), Down8(c)) == Shift8(Xor(c, Widen(b)))
  {
    hide *;
    var x := Xor(c, Widen(b));
    HighAndLow(x);
    NoLowByte(c, b);
    Shift8Xor(Widen(Low(x)), High(x));
    ShiftHigh(x);
    TableIsBitwise(Low(x));
  }

  lemma RegisterStep(c: bv32, p: seq<bv8>, i: nat)
    requires i < |p|
    ensures Register(c, p[i..]) == Register(Shift8(Xor(c, Widen(p[i]))), p[i + 1..])
  {
    hide Shift8, Xor, Widen;
    assert p[i..][0] == p[i] && p[i..][1..] == p[i + 1..];
  }

  /** `calculate` from any starting register. */
  method Calculate(data: seq<bv8>, start: bv32) returns (crc: bv32)
    ensures crc == !Register(start, data)
  {
    hide Shift8, Xor, Widen, Table, Low, Down8;
    crc := start;
    assert data[0..] == data;
    for i := 0 to |data|
      invariant Register(crc, data[i..]) == Register(start, data)
    {
      StepIsBitwise(crc, data[i]);
      RegisterStep(crc, data, i);
      crc := Xor(Table(Low(Xor(crc, Widen(data[i])))), Down8(crc));
    }
    assert data[|data|..] == [];
    crc := !crc;
  }

  /** `crc32` is the bitwise CRC-32, on every byte sequence. */
  method Crc32(data: seq<bv8>) returns (crc: bv32)
    ensures crc == Bitwise(data)
  {
    crc := Calculate(data, 0xFFFF_FFFF);
  }

  // ---------- damage to one byte ----------

  lemma ShiftInjective(a: bv32, b: bv32)
    requires Shift(a) == Shift(b)
    ensures a == b
  {
  }

  lemma Shift8Injective(a: bv32, b: bv32)
    requires Shift8(a) == Shift8(b)
    ensures a == b
  {
    hide Shift;
    var a2, b2 := Shift(Shift(a)), Shift(Shift(b));
    var a4, b4 := Shift(Shift(a2)), Shift(Shift(b2));
    var a6, b6 := Shift(Shift(a4)), Shift(Shift(b4));
    ShiftInjective(Shift(a6), Shift(b6));
    ShiftInjective(a6, b6);
    ShiftInjective(Shift(a4), Shift(b4));
    ShiftInjective(a4, b4);
    ShiftInjective(Shift(a2), Shift(b2));
    ShiftInjective(a2, b2);
    ShiftInjective(Shift(a), Shift(b));
    ShiftInjective(a, b);
  }

  lemma ByteCancels(a: bv8, b: bv8, x: bv32)
    requires Xor(x, Widen(a)) == Xor(x, Widen(b))
    ensures a == b
  {
  }

  /** Different registers stay different under the same byte. */
  lemma StepInjective(a: bv32, b: bv32, x: bv32)
    requires a != b
    ensures Shift8(Xor(a, x)) != Shift8(Xor(b, x))
  {
    hide Shift8, Xor;
    if Shift8(Xor(a, x)) == Shift8(Xor(b, x)) {
      Shift8Injective(Xor(a, x), Xor(b, x));
      XorCancels(a, b, x);
    }
  }

  /** Different registers stay different under the same bytes. */
  lemma {:induction false} RegisterInjective(a: bv32, b: bv32, p: seq<bv8>)
    requires a != b
    ensures Register(a, p) != Register(b, p)
    decreases p
  {
    hide Shift8, Xor, Widen;
    if p != [] {
      StepInjective(a, b, Widen(p[0]));
      RegisterInjective(Shift8(Xor(a, Widen(p[0]))), Shift8(Xor(b, Widen(p[0]))), p[1..]);
    }
  }

  lemma {:induction false} RegisterAppend(c: bv32, p: seq<bv8>, q: seq<bv8>)
    ensures Register(c, p + q) == Register(Register(c, p), q)
    decreases p
  {
    hide Shift8, Xor, Widen;
    if p == [] {
      assert p + q == q;
    } else {
      assert (p + q)[1..] == p[1..] + q;
      RegisterAppend(Shift8(Xor(c, Widen(p[0]))), p[1..], q);
    }
  }

  lemma OneStep(c: bv32, b: bv8)
    ensures Register(c, [b]) == Shift8(Xor(c, Widen(b)))
  {
    hide Shift8, Xor, Widen;
    assert [b][1..] == [];
    assert Register(Shift8(Xor(c, Widen(b))), []) == Shift8(Xor(c, Widen(b)));
  }

  lemma ComplementInjective(a: bv32, b: bv32)
    requires a != b
    ensures !a != !b
  {
  }

  /** Byte sequences of one length that differ in exactly one byte have different checksums. */
  lemma OneByteDetected(p: seq<bv8>, a: bv8, b: bv8, q: seq<bv8>)
    requires a != b
    ensures Bitwise(p + [a] + q) != Bitwise(p + [b] + q)
  {
    hide Shift8, Xor, Widen, Register;
    var c := Register(0xFFFF_FFFF, p);
    RegisterAppend(0xFFFF_FFFF, p + [a], q);
    RegisterAppend(0xFFFF_FFFF, p, [a]);
    RegisterAppend(0xFFFF_FFFF, p + [b], q);
    RegisterAppend(0xFFFF_FFFF, p, [b]);
    OneStep(c, a);
    OneStep(c, b);
    var ra, rb := Shift8(Xor(c, Widen(a))), Shift8(Xor(c, Widen(b)));
    if ra == rb {
      Shift8Injective(Xor(c, Widen(a)), Xor(c, Widen(b)));
      ByteCancels(a, b, c);
    }
    RegisterInjective(ra, rb, q);
    ComplementInjective(Register(ra, q), Register(rb, q));
  }

  // ---------- the check value ----------

  lemma CheckSteps1()
    ensures Shift8(Xor(0xFFFFFFFF, Widen(0x31))) == 0x7C231048
    ensures Shift8(Xor(0x7C231048, Widen(0x32))) == 0xB0ACBB32
    ensures Shift8(Xor(0xB0ACBB32, Widen(0x33))) == 0x77B79C2D
  {
  }

  lemma CheckSteps2()
    ensures Shift8(Xor(0x77B79C2D, Widen(0x34))) == 0x641C1F5C
    ensures Shift8(Xor(0x641C1F5C, Widen(0x35))) == 0x340AC5E3
    ensures Shift8(Xor(0x340AC5E3, Widen(0x36))) == 0xF68D2C9E
  {
  }

  lemma CheckSteps3()
    ensures Shift8(Xor(0xF68D2C9E, Widen(0x37))) == 0xAFFC9660
    ensures Shift8(Xor(0xAFFC9660, Widen(0x38))) == 0x651F2550
    ensures Shift8(Xor(0x651F2550, Widen(0x39))) == 0x340BC6D9
  {
  }

  const DIGITS: seq<bv8> := [0x31, 0x32, 0x33, 0x34, 0x35, 0x36, 0x37, 0x38, 0x39]

  lemma Digit(c: bv32, i: nat)
    requires i < 9
    ensures Register(c, DIGITS[i..]) == Register(Shift8(Xor(c, Widen(DIGITS[i]))), DIGITS[i + 1..])
  {
    hide Shift8, Xor, Widen;
    assert DIGITS[i..][1..] == DIGITS[i + 1..];
  }

  /** The check value of CRC-32: the checksum of the characters 1 to 9. */
  lemma CheckValue()
    ensures Bitwise(DIGITS) == 0xCBF43926
  {
    hide Shift8, Xor, Widen, Register;
    CheckSteps1();
    CheckSteps2();
    CheckSteps3();
    Digit(0xFFFFFFFF, 0);
    Digit(0x7C231048, 1);
    Digit(0xB0ACBB32, 2);
    Digit(0x77B79C2D, 3);
    Digit(0x641C1F5C, 4);
    Digit(0x340AC5E3, 5);
    Digit(0xF68D2C9E, 6);
    Digit(0xAFFC9660, 7);
    Digit(0x651F2550, 8);
    NoBytes(0x340BC6D9);
    assert DIGITS[9..] == [] && DIGITS[0..] == DIGITS;
  }

  lemma NoBytes(c: bv32)
    ensures Register(c, []) == c
  {
  }
}
